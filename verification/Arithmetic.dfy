/** The few facts about products and quotients the models need. */
module Arithmetic {

  lemma MulMonotone(a: nat, b: nat, f: nat)
    requires a <= b
    ensures a * f <= b * f
  {
  }

  /** `q` and `r` are the quotient and the remainder of `x`. */
  lemma QuotientIs(x: nat, d: nat, q: nat, r: nat)
    requires r < d && x == q * d + r
    ensures x / d == q && x % d == r
  {
    var q' := x / d;
    if q' < q { MulMonotone(q' + 1, q, d); }
    if q < q' { MulMonotone(q + 1, q', d); }
  }

  lemma DivMonotone(x: nat, y: nat, d: nat)
    requires x <= y && d >= 1
    ensures x / d <= y / d
  {
    var q := y / d;
    if x / d >= q + 1 { MulMonotone(q + 1, x / d, d); }
  }

  lemma DivBelow(x: nat, d: nat, n: nat)
    requires d >= 1 && x < n * d
    ensures x / d < n
  {
    if x / d >= n { MulMonotone(n, x / d, d); }
  }

  function Div(x: nat, d: nat): nat
    requires d >= 1
  {
    x / d
  }

  /** One group more or less. */
  lemma GroupsStep(groups: nat, f: nat)
    requires groups > 0
    ensures groups * f == (groups - 1) * f + f && (groups - 1) * f >= 0
    ensures groups == 1 ==> groups * f == f
    ensures groups > 1 && f > 0 ==> groups * f > f
  {
    if groups > 1 { MulMonotone(1, groups - 1, f); }
  }

  lemma QuotientBounds(x: nat, d: nat)
    requires d >= 1
    ensures Div(x, d) * d <= x < Div(x, d) * d + d
  {
  }

  /** The quotient steps up exactly at the multiples. */
  lemma NextQuotient(x: nat, d: nat)
    requires d >= 1
    ensures Div(x + 1, d) == Div(x, d) + if (x + 1) % d == 0 then 1 else 0
  {
    var q, r := x / d, x % d;
    if r + 1 < d {
      QuotientIs(x + 1, d, q, r + 1);
    } else {
      GroupsStep(q + 1, d);
      QuotientIs(x + 1, d, q + 1, 0);
    }
  }

  lemma DivMod(x: nat, d: nat)
    requires d >= 1
    ensures x == (x / d) * d + x % d
  {
  }

  /** The remainder `k` after a number with remainder `i`, at most one multiple on. */
  lemma RemainderAfter(q: nat, d: nat, i: nat, k: nat)
    requires i < d && i + k < 2 * d
    ensures (q * d + i + k) % d == if i + k < d then i + k else i + k - d
  {
    if i + k < d {
      QuotientIs(q * d + i + k, d, q, i + k);
    } else {
      GroupsStep(q + 1, d);
      QuotientIs(q * d + i + k, d, q + 1, i + k - d);
    }
  }
}
