/**
  Multiplication and division facts that several components need, each in a lemma of its own.
 */
module Arithmetic {
  /** n times x, as repeated addition. */
  function Times(n: nat, x: real): real { if n == 0 then 0.0 else Times(n - 1, x) + x }

  lemma {:induction false} TimesIsProduct(n: nat, x: real)
    ensures Times(n, x) == n as real * x
  {
    if n > 0 { TimesIsProduct(n - 1, x); }
  }

  function Total(s: seq<nat>): nat { if s == [] then 0 else Total(s[..|s| - 1]) + s[|s| - 1] }

  function CeilDiv(a: nat, b: nat): nat
    requires b > 0
  {
    (a + b - 1) / b
  }

  lemma DivBounds(a: nat, b: nat)
    requires b > 0
    ensures (a / b) * b <= a < (a / b) * b + b
  {}

  lemma ProductAtMost(a: nat, b: nat, d: nat)
    requires a <= b
    ensures a * d <= b * d
  {}

  lemma ProductLess(a: nat, b: nat, d: nat)
    requires a < b && d > 0
    ensures a * d < b * d
  {}

  lemma OneMore(a: int, d: int)
    ensures (a + 1) * d == a * d + d
    ensures (a - 1) * d == a * d - d
  {}

  lemma DivIsLess(a: nat, b: nat, q: nat)
    requires b > 0
    ensures a / b < q <==> a < q * b
  {
    DivBounds(a, b);
    OneMore(a / b, b);
    if a / b < q { ProductAtMost(a / b + 1, q, b); } else { ProductAtMost(q, a / b, b); }
  }

  lemma CeilDivBounds(a: nat, b: nat)
    requires b > 0
    ensures a <= CeilDiv(a, b) * b <= a + b - 1
    ensures a > 0 ==> (CeilDiv(a, b) - 1) * b < a
  {
    DivBounds(a + b - 1, b);
    OneMore(CeilDiv(a, b), b);
  }
}
