// Circular positions 0..n-1, written with comparisons instead of remainders.
module Ring {
  function Next(i: nat, n: nat): (r: nat)
    requires i < n
    ensures r < n
  {
    if i + 1 == n then 0 else i + 1
  }

  function Prev(i: nat, n: nat): (r: nat)
    requires i < n
    ensures r < n && Next(r, n) == i
  {
    if i == 0 then n - 1 else i - 1
  }

  /** Steps needed to walk forward from base to i. */
  function Dist(base: nat, i: nat, n: nat): (d: nat)
    requires base < n && i < n
    ensures d < n
  {
    if base > i then n - base + i else i - base
  }

  /** The position m steps after base. */
  function Advance(base: nat, m: nat, n: nat): (i: nat)
    requires base < n && m <= n
    ensures i < n
    ensures m < n ==> Dist(base, i, n) == m
  {
    if base + m < n then base + m else base + m - n
  }

  lemma AdvanceDist(base: nat, i: nat, n: nat)
    requires base < n && i < n
    ensures Advance(base, Dist(base, i, n), n) == i
  {
  }

  lemma DistNext(base: nat, i: nat, n: nat)
    requires base < n && i < n
    ensures Dist(base, Next(i, n), n) == if Next(i, n) == base then 0 else Dist(base, i, n) + 1
    ensures i != base ==> Dist(Next(i, n), base, n) == Dist(i, base, n) - 1
  {
  }

  lemma NextIsRemainder(i: nat, n: nat)
    requires i < n
    ensures (i + 1) % n == Next(i, n)
  {
    if i + 1 < n {
    } else {
      assert (i + 1) % n == n % n == 0;
    }
  }

  /** Walking from b, a is met no later than z: the distances subtract. */
  lemma Between(b: nat, a: nat, z: nat, n: nat)
    requires b < n && a < n && z < n && Dist(b, a, n) <= Dist(b, z, n)
    ensures Dist(a, z, n) == Dist(b, z, n) - Dist(b, a, n)
  {
  }

  /** The d positions from base on. */
  ghost function Arc(base: nat, d: nat, n: nat): (s: set<nat>)
    requires base < n && d <= n
    ensures |s| == d
    ensures forall q: nat :: q in s <==> q < n && Dist(base, q, n) < d
  {
    if d == 0 then {} else Arc(base, d - 1, n) + {Advance(base, d - 1, n)}
  }
}
