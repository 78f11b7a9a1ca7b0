/** A function applied over and over. */
module Iteration {
  function Iterate<A>(f: A -> A, a: A, n: nat): A {
    if n == 0 then a else f(Iterate(f, a, n - 1))
  }

  /** A value that is mapped to itself is the last one. */
  lemma {:induction false} Stays<A>(f: A -> A, a: A, n: nat, m: nat)
    requires n <= m && f(Iterate(f, a, n)) == Iterate(f, a, n)
    ensures Iterate(f, a, m) == Iterate(f, a, n)
  {
    if n < m { Stays(f, a, n, m - 1); }
  }

  /** After a value that was there before, no new value comes. */
  lemma {:induction false} Repeats<A>(f: A -> A, a: A, i: nat, j: nat, n: nat) returns (m: nat)
    requires i < j && Iterate(f, a, i) == Iterate(f, a, j) && i <= n
    ensures i <= m < j && Iterate(f, a, n) == Iterate(f, a, m)
  {
    if n < j { return n; }
    var k := Repeats(f, a, i, j, n - 1);
    m := if k + 1 < j then k + 1 else i;
  }
}
