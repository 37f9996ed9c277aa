/** Remainders by repeated subtraction, which the round-robin proofs count with. */
module Modular {

  function Mod(x: nat, c: nat): (r: nat)
    requires c > 0
    ensures r < c && (x < c ==> r == x)
  {
    if x < c then x else Mod(x - c, c)
  }

  lemma Unique(c: nat, k: int, r: int, s: int)
    requires 0 <= r < c && 0 <= s < c && k * c == r - s
    ensures r == s
  {}

  lemma {:induction false} ModIs(x: nat, c: nat)
    requires c > 0
    ensures x % c == Mod(x, c)
  {
    var q := Quotient(x, c);
    QuotientIs(x, c);
    var k := x / c;
    assert x == k * c + x % c;
    assert (k - q) * c == Mod(x, c) - x % c by { assert (k - q) * c == k * c - q * c; }
    Unique(c, k - q, Mod(x, c), x % c);
  }

  function Quotient(x: nat, c: nat): nat
    requires c > 0
  {
    if x < c then 0 else 1 + Quotient(x - c, c)
  }

  lemma {:induction false} QuotientIs(x: nat, c: nat)
    requires c > 0
    ensures x == Quotient(x, c) * c + Mod(x, c)
  {
    if x >= c {
      QuotientIs(x - c, c);
      var q := Quotient(x - c, c);
      assert (1 + q) * c == c + q * c;
    }
  }

  /** Adding less than a full turn wraps at most once. */
  lemma {:induction false} ModAdd(x: nat, d: nat, c: nat)
    requires d < c
    ensures Mod(x + d, c) == if Mod(x, c) + d < c then Mod(x, c) + d else Mod(x, c) + d - c
  {
    if x >= c { ModAdd(x - c, d, c); } else if x + d >= c { assert Mod(x + d, c) == Mod(x + d - c, c); }
  }

  lemma {:induction false} ModAddMultiple(x: nat, m: nat, c: nat)
    requires c > 0 && Mod(m, c) == 0
    ensures Mod(x + m, c) == Mod(x, c)
    decreases m
  {
    if m >= c {
      ModAddMultiple(x, m - c, c);
      assert x + m >= c && x + m - c == x + (m - c);
    }
  }
}
