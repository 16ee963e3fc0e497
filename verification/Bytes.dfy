/** Bytes, big-endian numbers and the lexicographic order an ordered store keeps its keys in. */
module Bytes {
  newtype byte = x: int | 0 <= x < 256

  function Pow256(n: nat): nat {
    if n == 0 then 1 else 256 * Pow256(n - 1)
  }

  function BigEndian(v: nat, n: nat): (s: seq<byte>)
    ensures |s| == n
  {
    if n == 0 then [] else BigEndian(v / 256, n - 1) + [(v % 256) as byte]
  }

  predicate LexLess(a: seq<byte>, b: seq<byte>) {
    b != [] && (a == [] || a[0] < b[0] || (a[0] == b[0] && LexLess(a[1..], b[1..])))
  }

  lemma {:induction false} LexCommonPrefix(p: seq<byte>, a: seq<byte>, b: seq<byte>)
    ensures LexLess(p + a, p + b) <==> LexLess(a, b)
  {
    if p == [] {
      assert p + a == a && p + b == b;
    } else {
      assert (p + a)[1..] == p[1..] + a && (p + b)[1..] == p[1..] + b;
      LexCommonPrefix(p[1..], a, b);
    }
  }

  lemma {:induction false} LexIrreflexive(a: seq<byte>)
    ensures !LexLess(a, a)
  {
    if a != [] {
      LexIrreflexive(a[1..]);
    }
  }

  lemma {:induction false} LexAsymmetric(a: seq<byte>, b: seq<byte>)
    requires LexLess(a, b)
    ensures !LexLess(b, a)
  {
    if a != [] && a[0] == b[0] {
      LexAsymmetric(a[1..], b[1..]);
    }
  }

  /** The order of big-endian numbers is the order of the keys they begin, whatever follows. */
  lemma {:induction false} BigEndianOrder(a: nat, b: nat, n: nat, x: seq<byte>, y: seq<byte>)
    requires a < b < Pow256(n)
    ensures LexLess(BigEndian(a, n) + x, BigEndian(b, n) + y)
  {
    var p, q := BigEndian(a / 256, n - 1), BigEndian(b / 256, n - 1);
    var x', y' := [(a % 256) as byte] + x, [(b % 256) as byte] + y;
    assert BigEndian(a, n) + x == p + x' && BigEndian(b, n) + y == q + y';
    if a / 256 < b / 256 {
      BigEndianOrder(a / 256, b / 256, n - 1, x', y');
    } else {
      LexCommonPrefix(p, x', y');
    }
  }

  lemma {:induction false} BigEndianInjective(a: nat, b: nat, n: nat)
    requires a < Pow256(n) && b < Pow256(n) && BigEndian(a, n) == BigEndian(b, n)
    ensures a == b
  {
    if n > 0 {
      var s, t := BigEndian(a, n), BigEndian(b, n);
      assert s[..n - 1] == BigEndian(a / 256, n - 1) && t[..n - 1] == BigEndian(b / 256, n - 1);
      assert s[n - 1] == (a % 256) as byte && t[n - 1] == (b % 256) as byte;
      BigEndianInjective(a / 256, b / 256, n - 1);
    }
  }

  /** Zero is the least number of its width. */
  lemma {:induction false} BigEndianZeroLeast(v: nat, n: nat, x: seq<byte>)
    requires v < Pow256(n)
    ensures !LexLess(BigEndian(v, n) + x, BigEndian(0, n))
  {
    var zero := BigEndian(0, n);
    assert zero + [] == zero;
    if v == 0 {
      LexCommonPrefix(zero, x, []);
    } else {
      BigEndianOrder(0, v, n, [], x);
      LexAsymmetric(zero + [], BigEndian(v, n) + x);
    }
  }
}
