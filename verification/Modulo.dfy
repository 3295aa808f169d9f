/** Remainders. */
module Modulo {

  lemma ModAdd(a: nat, d: nat, l: nat)
    requires l > 0
    ensures (a + d) % l == if a % l + d % l < l then a % l + d % l else a % l + d % l - l
  {
    var q, r, s, t := a / l, a % l, d / l, d % l;
    assert a == l * q + r && d == l * s + t;
    if r + t < l {
      Distribute(l, q, s);
      Quotient(a + d, l, q + s, r + t);
    } else {
      Distribute(l, q, s);
      Distribute(l, q + s, 1);
      Quotient(a + d, l, q + s + 1, r + t - l);
    }
  }

  lemma Distribute(l: nat, q: nat, s: nat)
    ensures l * (q + s) == l * q + l * s
  {
  }

  lemma ModNext(a: nat, l: nat)
    requires l > 0
    ensures (a + 1) % l == if a % l + 1 < l then a % l + 1 else 0
  {
    if l == 1 {
      assert a % l == 0 && (a + 1) % l == 0;
    } else {
      Quotient(1, l, 0, 1);
      ModAdd(a, 1, l);
    }
  }

  lemma Quotient(v: nat, l: nat, q: nat, r: nat)
    requires l > 0 && v == l * q + r && r < l
    ensures v % l == r
  {
    var d: int := v / l - (q as int);
    assert l * d == r - v % l;
    Multiple(l, d);
  }

  lemma Multiple(l: nat, d: int)
    ensures d >= 1 ==> l * d >= l
    ensures d <= -1 ==> l * d + l <= 0
  {
  }

  /** Going round leads back exactly after whole rounds. */
  lemma ModSame(a: nat, d: nat, l: nat)
    requires l > 0
    ensures (a + d) % l == a % l <==> d % l == 0
  {
    ModAdd(a, d, l);
  }

  lemma ModSmall(a: nat, l: nat)
    requires a < l
    ensures a % l == a
  {
    Quotient(a, l, 0, a);
  }

  lemma ModWhole(a: nat, l: nat, k: nat)
    requires l > 0
    ensures (a + l * k) % l == a % l
  {
    Distribute(l, a / l, k);
    Quotient(a + l * k, l, a / l + k, a % l);
  }

  /** A remainder by a multiple has the same remainder. */
  lemma ModOfMod(a: nat, l: nat, k: nat)
    requires l > 0 && k > 0
    ensures l * k > 0 && a % (l * k) % l == a % l
  {
    Multiple(l, k);
    var m := l * k;
    var q, r := a / m, a % m;
    assert a == m * q + r;
    Associate(l, k, q);
    ModWhole(r, l, k * q);
  }

  lemma Associate(l: nat, k: nat, q: nat)
    ensures (l * k) * q == l * (k * q)
  {
  }

  /** The remainder, found by subtraction. */
  ghost function Rest(a: nat, l: nat): (r: nat)
    requires l > 0
    ensures r < l
  {
    if a < l then a else Rest(a - l, l)
  }

  lemma {:induction false} RestIsMod(a: nat, l: nat)
    requires l > 0
    ensures Rest(a, l) == a % l
  {
    if a < l {
      ModSmall(a, l);
    } else {
      RestIsMod(a - l, l);
      ModWhole(a - l, l, 1);
    }
  }

  /** `a` and `b` differ by whole rounds. */
  ghost predicate Same(a: nat, b: nat, l: nat)
    requires l > 0
    decreases a + b
  {
    if a >= l then Same(a - l, b, l) else if b >= l then Same(a, b - l, l) else a == b
  }

  lemma {:induction false} SameIsMod(a: nat, b: nat, l: nat)
    requires l > 0
    ensures Same(a, b, l) <==> a % l == b % l
    decreases a + b
  {
    if a >= l {
      ModWhole(a - l, l, 1);
      SameIsMod(a - l, b, l);
    } else if b >= l {
      ModWhole(b - l, l, 1);
      SameIsMod(a, b - l, l);
    } else {
      ModSmall(a, l);
      ModSmall(b, l);
    }
  }

  lemma SameAdd(a: nat, b: nat, d: nat, l: nat)
    requires l > 0 && Same(a, b, l)
    ensures Same(a + d, b + d, l)
  {
    SameIsMod(a, b, l);
    ModAdd(a, d, l);
    ModAdd(b, d, l);
    SameIsMod(a + d, b + d, l);
  }

  lemma SameTrans(a: nat, b: nat, c: nat, l: nat)
    requires l > 0 && Same(a, b, l) && Same(b, c, l)
    ensures Same(a, c, l) && Same(b, a, l)
  {
    SameIsMod(a, b, l);
    SameIsMod(b, c, l);
    SameIsMod(a, c, l);
    SameIsMod(b, a, l);
  }

  /** Leaving out a round. */
  lemma SameRound(a: nat, l: nat)
    requires 0 < l <= a
    ensures Same(a - l, a, l) && Same(a, a - l, l)
  {
    ModWhole(a - l, l, 1);
    SameIsMod(a - l, a, l);
    SameIsMod(a, a - l, l);
  }

  /** What differs by rounds of a multiple differs by rounds. */
  lemma SameFiner(a: nat, b: nat, m: nat, l: nat)
    requires l > 0 && m > 0 && Same(m, 0, l) && Same(a, b, m)
    ensures Rest(a, l) == Rest(b, l) && a % l == b % l
  {
    SameModFiner(a, b, m, l);
    RestIsMod(a, l);
    RestIsMod(b, l);
  }

  lemma SameModFiner(a: nat, b: nat, m: nat, l: nat)
    requires l > 0 && m > 0 && Same(m, 0, l) && Same(a, b, m)
    ensures a % l == b % l
  {
    SameIsMod(m, 0, l);
    ModSmall(0, l);
    var k := m / l;
    assert m == l * k;
    SameIsMod(a, b, m);
    ModOfMod(a, l, k);
    ModOfMod(b, l, k);
  }
}
