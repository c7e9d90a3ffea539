/** Arithmetic used to address bytes in sectors and sectors in clusters. */
module Arith {

  /** The size of `n` blocks of `d`; a product, kept out of sight of the nonlinear solver. */
  function Times(d: nat, n: nat): nat {
    if n == 0 then 0 else d + Times(d, n - 1)
  }

  lemma {:induction false} TimesIs(d: nat, n: nat)
    ensures Times(d, n) == d * n
  {
    if n > 0 {
      TimesIs(d, n - 1);
      assert d * n == d * (n - 1) + d;
    }
  }

  lemma {:induction false} TimesMono(d: nat, a: nat, b: nat)
    requires a <= b
    ensures Times(d, a) <= Times(d, b)
    ensures a < b ==> Times(d, a) + d <= Times(d, b)
  {
    if a < b {
      TimesMono(d, a, b - 1);
    }
  }

  /** `x / d`, as repeated subtraction. */
  function Quot(x: nat, d: nat): nat
    requires d > 0
  {
    if x < d then 0 else 1 + Quot(x - d, d)
  }

  lemma {:induction false} QuotTimes(x: nat, d: nat)
    requires d > 0
    ensures Times(d, Quot(x, d)) <= x < Times(d, Quot(x, d)) + d
  {
    if x >= d {
      QuotTimes(x - d, d);
    }
  }

  lemma QuotUnique(x: nat, d: nat, q: nat)
    requires d > 0 && Times(d, q) <= x < Times(d, q) + d
    ensures Quot(x, d) == q
  {
    QuotTimes(x, d);
    var p := Quot(x, d);
    if p < q { TimesMono(d, p, q); } else { TimesMono(d, q, p); }
  }

  lemma QuotIs(x: nat, d: nat)
    requires d > 0
    ensures Quot(x, d) == x / d
  {
    DivModOf(x, d);
    TimesIs(d, x / d);
    QuotUnique(x, d, x / d);
  }

  lemma MulNonNegative(d: nat, n: nat)
    ensures d * n >= 0
  {
  }

  lemma MulMono(a: int, b: int, d: int)
    requires d >= 0
    ensures a <= b ==> d * a <= d * b
    ensures a < b ==> d * a + d <= d * b
  {
    if a < b {
      MulNonNegative(d, b - a - 1);
      assert d * (b - a - 1) == d * b - d * a - d;
    }
  }

  lemma DivModOf(x: nat, d: nat)
    requires d > 0
    ensures x == d * (x / d) + x % d
    ensures 0 <= x / d && 0 <= x % d < d
  {
  }

  function Div(x: nat, d: nat): nat
    requires d > 0
  {
    DivModOf(x, d);
    x / d
  }

  /** Quotient and remainder are unique. */
  lemma EuclidUnique(d: nat, q: int, r: nat, q': int, r': nat)
    requires d > 0 && r < d && r' < d && d * q + r == d * q' + r'
    ensures q == q' && r == r'
  {
    MulMono(q, q', d);
    MulMono(q', q, d);
  }

  lemma DivModIs(x: nat, d: nat, q: nat, r: nat)
    requires d > 0 && r < d && x == d * q + r
    ensures x / d == q && x % d == r
  {
    DivModOf(x, d);
    EuclidUnique(d, q, r, x / d, x % d);
  }

  lemma DivBound(x: nat, d: nat, n: nat)
    requires d > 0 && x < d * n
    ensures x / d < n
  {
    DivModOf(x, d);
    MulMono(n, x / d, d);
  }

  /** Quotient and remainder. */
  method Split(x: nat, d: nat) returns (q: nat, r: nat)
    requires d > 0
    ensures x == Times(d, q) + r && r < d
  {
    DivModOf(x, d);
    q, r := x / d, x % d;
    TimesIs(d, q);
  }

  /** Block and offset of byte `i` in `n` blocks of `d` bytes. */
  method Address(i: nat, d: nat, n: nat) returns (s: nat, o: nat)
    requires d > 0 && i < Times(d, n)
    ensures i == Times(d, s) + o && s < n && o < d
  {
    TimesIs(d, n);
    DivModOf(i, d);
    DivBound(i, d, n);
    s, o := i / d, i % d;
    TimesIs(d, s);
  }

  /** Entry `c` of `w` bytes in sectors of `m * w` bytes. */
  lemma EntryPlace(c: nat, w: nat, m: nat)
    requires w > 0 && m > 0
    ensures m * w > 0 && c * w == m * w * (c / m) + c % m * w
    ensures c % m * w + w <= m * w
  {
    var q, r := c / m, c % m;
    DivModOf(c, m);
    assert m * w * q == m * q * w;
    assert (m * q + r) * w == m * q * w + r * w;
    MulMono(r, m, w);
  }

  lemma EntryPlaceIn(c: nat, w: nat, m: nat, ss: nat, n: nat)
    requires w > 0 && m > 0 && ss == m * w && c * w < ss * n
    ensures ss > 0 && c * w == ss * (c / m) + c * w % ss && c / m < n && c * w % ss + w <= ss
  {
    EntryPlace(c, w, m);
    DivModIs(c * w, ss, c / m, c % m * w);
    DivBound(c * w, ss, n);
  }

  /** Sector and offset of entry `c` of `w` bytes in a table of `n` sectors; no entry straddles two sectors. */
  method EntryAddress(c: nat, w: nat, ss: nat, n: nat) returns (s: nat, o: nat)
    requires (w == 2 || w == 4) && ss > 0 && ss % 4 == 0 && c * w < Times(ss, n)
    ensures c * w == Times(ss, s) + o && s < n && o + w <= ss
  {
    TimesIs(ss, n);
    var m := ss / w;
    s, o := c / m, c * w % ss;
    WholeEntries(w, ss);
    EntryPlaceIn(c, w, m, ss, n);
    TimesIs(ss, s);
  }

  lemma WholeEntries(w: nat, ss: nat)
    requires (w == 2 || w == 4) && ss > 0 && ss % 4 == 0
    ensures ss / w > 0 && ss == ss / w * w
  {
  }

  /** Dividing twice is dividing by the product. */
  lemma DivDiv(x: nat, a: nat, b: nat)
    requires a > 0 && b > 0
    ensures a * b > 0
    ensures x / a / b == x / (a * b)
    ensures x % (a * b) == a * ((x / a) % b) + x % a
  {
    var q := x / a;
    var qq, rr := q / b, q % b;
    DivModOf(x, a);
    DivModOf(q, b);
    MulMono(0, b, a);
    MulMono(rr, b, a);
    assert x == a * b * qq + (a * rr + x % a) by {
      assert a * (b * qq) == a * b * qq;
      assert a * (b * qq + rr) == a * (b * qq) + a * rr;
    }
    DivModIs(x, a * b, qq, a * rr + x % a);
  }
}
