/** Bytes, little-endian integers and the slice assignment of Python's bytearray. */
module Bytes {

  type byte = x: int | 0 <= x < 256
  type u32 = x: int | 0 <= x < 0x1_0000_0000

  const BLANK_BYTE: byte := 0xFF

  /** n bytes in the erased state of flash memory. */
  function Blank(n: nat): (s: seq<byte>)
    ensures |s| == n
    ensures forall i :: 0 <= i < n ==> s[i] == BLANK_BYTE
  {
    seq(n, i => BLANK_BYTE)
  }

  function Zeros(n: nat): (s: seq<byte>)
    ensures |s| == n
    ensures forall i :: 0 <= i < n ==> s[i] == 0
  {
    seq(n, i => 0)
  }

  function Min(a: int, b: int): int { if a < b then a else b }

  function Max(a: int, b: int): int { if a < b then b else a }

  /** The value of `buf` after `buf[from:to] = data` on a bytearray: both bounds are clamped to
      the length, and a slice whose end lies before its start is empty. */
  function SliceAssign(buf: seq<byte>, from: nat, to: nat, data: seq<byte>): seq<byte>
  {
    var start := Min(from, |buf|);
    var end := Max(start, Min(to, |buf|));
    buf[..start] + data + buf[end..]
  }

  // ----- byte strings one after the other -----

  function Join(ps: seq<seq<byte>>): seq<byte> {
    if ps == [] then [] else ps[0] + Join(ps[1..])
  }

  lemma {:induction false} JoinSnoc(ps: seq<seq<byte>>, p: seq<byte>)
    ensures Join(ps + [p]) == Join(ps) + p
  {
    if ps != [] {
      JoinSnoc(ps[1..], p);
      assert (ps + [p])[1..] == ps[1..] + [p];
      assert ps[0] + (Join(ps[1..]) + p) == ps[0] + Join(ps[1..]) + p;
    }
  }

  lemma {:induction false} OneMore(n: nat, k: nat)
    ensures n * (k + 1) == n + n * k
  {
  }

  lemma {:induction false} SliceBehind(a: seq<byte>, b: seq<byte>, from: nat, n: nat)
    requires from + n <= |b|
    ensures (a + b)[|a| + from..|a| + from + n] == b[from..from + n]
  {
  }

  lemma {:induction false} JoinLength(ps: seq<seq<byte>>, n: nat)
    requires forall p :: p in ps ==> |p| == n
    ensures |Join(ps)| == n * |ps|
  {
    if ps != [] {
      JoinLength(ps[1..], n);
      OneMore(n, |ps| - 1);
    }
  }

  /** Where to find each of some strings of the same length. */
  lemma {:induction false} JoinAt(ps: seq<seq<byte>>, n: nat, i: nat)
    requires (forall p :: p in ps ==> |p| == n) && i < |ps|
    ensures n * i + n <= |Join(ps)| == n * |ps|
    ensures Join(ps)[n * i..n * i + n] == ps[i]
  {
    assert Join(ps) == ps[0] + Join(ps[1..]);
    hide Join;
    JoinLength(ps, n);
    if i > 0 {
      JoinAt(ps[1..], n, i - 1);
      OneMore(n, i - 1);
      SliceBehind(ps[0], Join(ps[1..]), n * (i - 1), n);
    }
  }

  // ----- little-endian integers -----

  function Pow256(width: nat): (p: nat)
    ensures p > 0
  {
    if width == 0 then 1 else 256 * Pow256(width - 1)
  }

  function LE(n: nat, width: nat): (s: seq<byte>)
    ensures |s| == width
  {
    if width == 0 then [] else [n % 256] + LE(n / 256, width - 1)
  }

  function UnLE(s: seq<byte>): (n: nat)
  {
    if s == [] then 0 else s[0] + 256 * UnLE(s[1..])
  }

  lemma {:induction false} LERoundTrip(n: nat, width: nat)
    requires n < Pow256(width)
    ensures UnLE(LE(n, width)) == n
  {
    if width > 0 {
      LERoundTrip(n / 256, width - 1);
      assert LE(n, width)[1..] == LE(n / 256, width - 1);
    }
  }

  lemma {:induction false} UnLERoundTrip(s: seq<byte>)
    ensures UnLE(s) < Pow256(|s|)
    ensures LE(UnLE(s), |s|) == s
  {
    if s != [] {
      UnLERoundTrip(s[1..]);
      assert UnLE(s) / 256 == UnLE(s[1..]);
      assert s == [s[0]] + s[1..];
    }
  }

  lemma {:induction false} LEStep(n: nat, width: nat)
    requires width > 0
    ensures LE(n, width) == [n % 256] + LE(n / 256, width - 1)
  {
  }

  lemma {:induction false} MultiplesApart(d: nat, m: int)
    ensures m >= 1 ==> d * m >= d
    ensures m <= -1 ==> d * m + d <= 0
  {
  }

  lemma {:induction false} QuotientIs(n: int, d: nat, q: int, r: nat)
    requires d > 0 && r < d && n == d * q + r
    ensures n / d == q
  {
    assert n == d * (n / d) + n % d;
    assert d * (q - n / d) == d * q - d * (n / d);
    MultiplesApart(d, q - n / d);
  }

  lemma {:induction false} DivideTwice(n: int, d: nat)
    requires d > 0
    ensures n / 256 / d == n / (256 * d)
  {
    var q := n / 256 / d;
    var r := n / 256 % d;
    assert n / 256 == d * q + r;
    assert n == 256 * (d * q + r) + n % 256;
    assert 256 * (d * q) == 256 * d * q;
    QuotientIs(n, 256 * d, q, 256 * r + n % 256);
  }

  /** Least significant byte first. */
  lemma {:induction false} LEByte(n: nat, width: nat, k: nat)
    requires k < width
    ensures LE(n, width)[k] == n / Pow256(k) % 256
  {
    if k > 0 {
      LEByte(n / 256, width - 1, k - 1);
      DivideTwice(n, Pow256(k - 1));
    }
  }

  lemma {:induction false} LEZero(width: nat)
    ensures LE(0, width) == Zeros(width)
  {
    if width > 0 {
      LEZero(width - 1);
    }
  }

  lemma {:induction false} Pow256Values()
    ensures Pow256(1) == 0x100 && Pow256(2) == 0x1_0000 && Pow256(4) == 0x1_0000_0000
    ensures Pow256(8) == 0x1_0000_0000_0000_0000
    ensures Pow256(16) == 0x1_0000_0000_0000_0000_0000_0000_0000_0000
  {
    assert Pow256(2) == 0x1_0000;
    assert Pow256(4) == 0x1_0000_0000;
    assert Pow256(6) == 0x1_0000_0000_0000;
    assert Pow256(8) == 0x1_0000_0000_0000_0000;
    assert Pow256(10) == 0x1_0000_0000_0000_0000_0000;
    assert Pow256(12) == 0x1_0000_0000_0000_0000_0000_0000;
    assert Pow256(14) == 0x1_0000_0000_0000_0000_0000_0000_0000;
  }

  // ----- single bits -----

  /** The value of bit k of a byte. */
  function Pow2(k: nat): (p: nat)
    requires k < 8
    ensures p > 0
  {
    if k == 0 then 1 else if k == 1 then 2 else if k == 2 then 4 else if k == 3 then 8
    else if k == 4 then 16 else if k == 5 then 32 else if k == 6 then 64 else 128
  }

  function Bit(b: byte, k: nat): (bit: int)
    requires k < 8
    ensures 0 <= bit <= 1
  {
    (if k == 0 then b else if k == 1 then b / 2 else if k == 2 then b / 4 else if k == 3 then b / 8
     else if k == 4 then b / 16 else if k == 5 then b / 32 else if k == 6 then b / 64 else b / 128) % 2
  }

  /** No bit of `after` is set that was clear in `before`: what flash memory can do without an erase. */
  predicate OnlyClearsBits(before: byte, after: byte)
  {
    forall k :: 0 <= k < 8 ==> Bit(after, k) <= Bit(before, k)
  }

  predicate OnlyClears(before: seq<byte>, after: seq<byte>)
  {
    |before| == |after| &&
    forall i :: 0 <= i < |before| ==> OnlyClearsBits(before[i], after[i])
  }

  lemma {:induction false} BlankBits()
    ensures forall k :: 0 <= k < 8 ==> Bit(BLANK_BYTE, k) == 1
  {
  }

  lemma {:induction false} OnlyClearsTransitive(a: seq<byte>, b: seq<byte>, c: seq<byte>)
    requires OnlyClears(a, b) && OnlyClears(b, c)
    ensures OnlyClears(a, c)
  {
    forall i | 0 <= i < |a|
      ensures OnlyClearsBits(a[i], c[i])
    {
      assert OnlyClearsBits(a[i], b[i]) && OnlyClearsBits(b[i], c[i]);
    }
  }
}
