/** The few facts about products and quotients that the other modules need. */
module Arithmetic {

  lemma OneMore(c: nat, m: nat)
    ensures c * (1 + m) == c + c * m
  {
  }

  lemma MultipleAtLeast(d: nat, x: int)
    requires d > 0
    ensures x >= 1 ==> d * x >= d
    ensures x <= -1 ==> d * x <= 0 - d
  {
    if x >= 1 { assert d * (x - 1) >= 0; }
    if x <= -1 { assert d * (x + 1) <= 0; }
  }

  lemma QuotientUnique(v: nat, d: nat, q: nat, r: nat)
    requires d > 0 && v == d * q + r && r < d
    ensures v / d == q
  {
    var x := v / d - q;
    assert v == d * (v / d) + v % d;
    assert d * x == d * (v / d) - d * q;
    MultipleAtLeast(d, x);
  }

  lemma QuotientTwice(v: nat, p: nat)
    requires p > 0
    ensures v / 256 / p == v / (256 * p)
  {
    var w, b := v / 256, v % 256;
    var q, r := w / p, w % p;
    assert w == p * q + r;
    Scale(p, q, r);
    QuotientUnique(v, 256 * p, q, 256 * r + b);
  }

  lemma Scale(p: nat, q: nat, r: nat)
    ensures 256 * (p * q + r) == 256 * p * q + 256 * r
  {
  }

  lemma QuotientStep(n: nat, d: nat)
    requires n >= d > 0
    ensures n / d == (n - d) / d + 1
  {
    var q, r := (n - d) / d, (n - d) % d;
    assert d * (q + 1) == d * q + d;
    QuotientUnique(n, d, q + 1, r);
  }

  lemma QuotientAtLeast(v: nat, d: nat, k: nat)
    requires d > 0 && d * k <= v
    ensures k <= v / d
  {
    var q := v / d;
    assert v == d * q + v % d;
    assert d * (k - q) == d * k - d * q;
    MultipleAtLeast(d, k - q);
  }
}
