/** Little-endian fixed-width integers. */
module Bytes {
  type byte = x: int | 0 <= x < 256

  function Pow256(k: nat): (p: int)
    ensures p >= 1
  {
    if k == 0 then 1 else 256 * Pow256(k - 1)
  }

  function LE(n: int, k: nat): (b: seq<byte>)
    requires 0 <= n < Pow256(k)
    ensures |b| == k
  {
    if k == 0 then [] else [n % 256] + LE(n / 256, k - 1)
  }

  /** Byte `i` is digit `i` of the number in base 256. */
  lemma {:induction false} LEAt(n: int, k: nat, i: nat)
    requires 0 <= n < Pow256(k) && i < k
    ensures LE(n, k)[i] == n / Pow256(i) % 256
  {
    if i > 0 {
      LEAt(n / 256, k - 1, i - 1);
      DivideTwice(n, 256, Pow256(i - 1));
    }
  }

  lemma DivideTwice(n: nat, d: nat, p: nat)
    requires d >= 1 && p >= 1
    ensures d * p >= 1 && n / d / p == n / (d * p)
  {
    var m := n / d;
    var q, a, b := m / p, m % p, n % d;
    assert m == p * q + a && n == d * m + b;
    Multiple(d, p);
    Regrouped(d, p, q, a);
    SmallRest(d, p, a, b);
    Quotient(n, d * p, q, d * a + b);
  }

  lemma Regrouped(d: int, p: int, q: int, a: int)
    ensures d * (p * q + a) == (d * p) * q + d * a
  {
  }

  lemma SmallRest(d: nat, p: nat, a: nat, b: nat)
    requires a < p && b < d
    ensures 0 <= d * a + b < d * p
  {
    assert d * p == d * a + d * (p - a);
    Multiple(d, p - a);
  }

  lemma Quotient(n: int, d: int, q: int, r: int)
    requires n == d * q + r && 0 <= r < d
    ensures n / d == q
  {
    var q', r' := n / d, n % d;
    assert n == d * q' + r';
    Distribute(d, q, q');
    Multiple(d, q - q');
  }

  lemma Distribute(d: int, q: int, q': int)
    ensures d * (q - q') == d * q - d * q'
  {
  }

  lemma Multiple(d: int, x: int)
    requires d >= 1
    ensures x >= 1 ==> d * x >= d
    ensures x <= -1 ==> d * x <= -d
  {
    if x >= 1 { assert d * x == d + d * (x - 1) && d * (x - 1) >= 0; }
    if x <= -1 { assert d * x == -d + d * (x + 1) && d * (x + 1) <= 0; }
  }

  function UnLE(b: seq<byte>): (n: int)
    ensures 0 <= n < Pow256(|b|)
  {
    if b == [] then 0 else b[0] + 256 * UnLE(b[1..])
  }

  lemma {:induction false} LERoundTrip(n: int, k: nat)
    requires 0 <= n < Pow256(k)
    ensures UnLE(LE(n, k)) == n
  {
    if k > 0 {
      LERoundTrip(n / 256, k - 1);
      assert LE(n, k)[1..] == LE(n / 256, k - 1);
    }
  }

  lemma Pow256Values()
    ensures Pow256(1) == 0x100 && Pow256(2) == 0x1_0000
    ensures Pow256(4) == 0x1_0000_0000 && Pow256(8) == 0x1_0000_0000_0000_0000
  {
    assert Pow256(3) == 0x100_0000 && Pow256(4) == 256 * Pow256(3);
    assert Pow256(5) == 256 * Pow256(4) && Pow256(6) == 256 * Pow256(5);
    assert Pow256(7) == 256 * Pow256(6) && Pow256(8) == 256 * Pow256(7);
  }
}
