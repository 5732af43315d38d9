/** Division, remainder and cardinality facts that the linear solver needs to be told. */
module Arithmetic {

  lemma ProductBound(d: int, k: int)
    requires d >= 0
    ensures k >= 1 ==> d * k >= d
    ensures k <= -1 ==> d * k <= -d
  {
  }

  lemma QuotientUnique(x: nat, d: nat, q: nat, r: nat)
    requires d > 0 && x == d * q + r && r < d
    ensures x / d == q && x % d == r
  {
    var k := x / d - q;
    assert d * (x / d) + x % d == x;
    assert d * k == d * (x / d) - d * q;
    ProductBound(d, k);
  }

  /** `x / d / c` is one division by the product. */
  lemma DivideTwice(x: nat, d: nat, c: nat)
    requires d > 0 && c > 0 && d * c > 0
    ensures x / d / c == x / (d * c)
  {
    var y := x / d;
    var q, r := y / c, y % c;
    var s := x % d;
    assert y == c * q + r;
    assert x == d * y + s;
    var t := d * c;
    assert d * y == t * q + d * r by { assert d * (c * q) == t * q; }
    assert d * r + s < t by { Row(d, c, r, s); }
    QuotientUnique(x, t, q, d * r + s);
  }

  /** Row-major position: row `r < c` and column `s < d` stay below `d * c`. */
  lemma Row(d: nat, c: nat, r: nat, s: nat)
    requires r < c && s < d
    ensures d * r + s < d * c
  {
    assert d * c == d * r + d * (c - r);
    ProductBound(d, c - r);
  }

  /** Dropping nine low bits commutes with cutting to a width. */
  lemma DropNine(p: nat, m: nat)
    requires m > 0
    ensures p % (512 * m) / 512 == p / 512 % m
    ensures p % (512 * m) % 512 == p % 512
  {
    var w := 512 * m;
    Divided(p, w);
    DropNineAt(p, m, w, p / w, p % w);
  }

  lemma DropNineAt(p: nat, m: nat, w: nat, k: nat, r: nat)
    requires m > 0 && w == 512 * m && p == w * k + r && r < w
    ensures r / 512 == p / 512 % m && r % 512 == p % 512
  {
    var t := m * k;
    Reassociated(m, k);
    Pull(t, r);
    QuotientUnique(t + r / 512, m, k, r / 512);
  }

  lemma Divided(p: nat, w: nat)
    requires w > 0
    ensures p == w * (p / w) + p % w && p % w < w && p / w >= 0
  {
  }

  lemma Reassociated(m: nat, k: nat)
    ensures (512 * m) * k == 512 * (m * k)
  {
  }

  lemma Pull(t: nat, r: nat)
    ensures (512 * t + r) / 512 == t + r / 512 && (512 * t + r) % 512 == r % 512
  {
  }

  lemma {:induction false} SubsetSize<T>(s: set<T>, t: set<T>)
    requires s <= t
    ensures |s| <= |t|
  {
    if s != {} {
      var x :| x in s;
      SubsetSize(s - {x}, t - {x});
    }
  }

  lemma AddedSize<T>(before: set<T>, after: set<T>)
    requires before <= after
    ensures |after - before| == |after| - |before|
  {
    assert after == before + (after - before);
  }

  function CeilDiv(n: nat, d: nat): nat
    requires d > 0
  {
    (n + d - 1) / d
  }

  lemma CeilDivBounds(n: nat, d: nat)
    requires d > 0
    ensures d * CeilDiv(n, d) >= n
    ensures CeilDiv(n, d) > 0 <==> n > 0
    ensures n > 0 ==> d * (CeilDiv(n, d) - 1) < n
  {
    var c: int := CeilDiv(n, d);
    assert d * c + (n + d - 1) % d == n + d - 1;
    assert d * (c - 1) == d * c - d;
    if n > 0 { assert c > 0 by { if c <= 0 { ProductBound(d, 1 - c); } } }
    if n == 0 { QuotientUnique(d - 1, d, 0, d - 1); }
  }

  lemma MultipleGrows(d: nat, i: nat, j: nat)
    requires i <= j
    ensures d * i <= d * j
  {
    assert d * j == d * i + d * (j - i);
  }

  lemma AddMultiple(x: nat, d: nat, i: nat)
    requires d > 0
    ensures (x + d * i) % d == x % d
  {
    var q, r := x / d, x % d;
    assert x == d * q + r;
    assert d * q + d * i == d * (q + i);
    QuotientUnique(x + d * i, d, q + i, r);
  }

  /** Page `i` of a range starts inside it, at the alignment of the range. */
  lemma StepOfRange(base: nat, length: nat, d: nat, i: nat)
    requires d > 0 && i < CeilDiv(length, d)
    ensures d * i < length
    ensures (base + d * i) % d == base % d
  {
    CeilDivBounds(length, d);
    MultipleGrows(d, i, CeilDiv(length, d) - 1);
    AddMultiple(base, d, i);
  }

  /** The numbers below `n`. */
  ghost function Below(n: nat): (s: set<nat>)
    ensures |s| == n
    ensures forall k: nat :: k in s <==> k < n
  {
    if n == 0 then {} else Below(n - 1) + {n - 1}
  }

  /** An injective map takes no more values than it has keys, so its keys fit its image. */
  lemma {:induction false} Pigeonhole<K>(m: map<K, nat>, image: set<nat>)
    requires forall x, y :: x in m && y in m && m[x] == m[y] ==> x == y
    requires forall x :: x in m ==> m[x] in image
    ensures |m| <= |image|
    decreases |m|
  {
    if m != map[] {
      var x :| x in m;
      var rest := m - {x};
      assert m.Keys == rest.Keys + {x};
      Pigeonhole(rest, image - {m[x]});
    }
  }
}
