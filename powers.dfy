/** Powers of two and integer logarithms: the sizes of the segment tree's
    buffer and the column index of the sparse table. The source computes
    ceil(log2 n) in floating point; here it is the exact integer value. */
module PowersOfTwo {

  /** 2^j, the source's `1 << j`. */
  function Pow2(j: nat): (p: nat)
    ensures p >= 1
  {
    if j == 0 then 1 else 2 * Pow2(j - 1)
  }

  ghost predicate IsPow2(q: int)
    decreases q
  {
    q == 1 || (q >= 2 && q % 2 == 0 && IsPow2(q / 2))
  }

  /** floor(log2 k) for k >= 1, and 0 for k = 0: the halving recurrence the
      sparse table uses for its `lt` list. The result is the exponent of the
      largest power of two at most k. */
  function FloorLog2(k: nat): (f: nat)
    ensures k >= 1 ==> Pow2(f) <= k < Pow2(f + 1)
  {
    if k < 2 then 0 else FloorLog2(k / 2) + 1
  }

  /** ceil(log2 n) for n >= 1: the exponent of the least power of two at
      least n. */
  function CeilLog2(n: nat): (c: nat)
    ensures n >= 1 ==> n <= Pow2(c)
    ensures n >= 2 ==> c >= 1 && Pow2(c - 1) < n
  {
    if n <= 1 then 0 else CeilLog2((n + 1) / 2) + 1
  }

  /** Every 2^j is a power of two in the sense of IsPow2. */
  lemma {:induction false} Pow2IsPow2(j: nat)
    ensures IsPow2(Pow2(j))
  {
    if j > 0 {
      Pow2IsPow2(j - 1);
      assert Pow2(j) / 2 == Pow2(j - 1);
    }
  }

  lemma {:induction false} Pow2Mono(a: nat, b: nat)
    requires a <= b
    ensures Pow2(a) <= Pow2(b)
    decreases b
  {
    if a < b {
      Pow2Mono(a, b - 1);
    }
  }

  /** 2^j fits in k exactly for the exponents up to FloorLog2(k). */
  lemma Pow2Below(j: nat, k: nat)
    requires k >= 1
    ensures Pow2(j) <= k <==> j <= FloorLog2(k)
  {
    if j <= FloorLog2(k) {
      Pow2Mono(j, FloorLog2(k));
    } else {
      Pow2Mono(FloorLog2(k) + 1, j);
    }
  }

  lemma FloorLog2Mono(a: nat, b: nat)
    requires 1 <= a <= b
    ensures FloorLog2(a) <= FloorLog2(b)
  {
    Pow2Below(FloorLog2(a), b);
  }

  /** A power of two is exactly 2^FloorLog2 of itself. */
  lemma {:induction false} IsPow2Exact(n: nat)
    requires n >= 1
    ensures IsPow2(n) <==> Pow2(FloorLog2(n)) == n
    decreases n
  {
    if n >= 2 {
      IsPow2Exact(n / 2);
    }
  }

  lemma {:induction false} Log2OfPow2(c: nat)
    ensures FloorLog2(Pow2(c)) == c
  {
    if c > 0 {
      Log2OfPow2(c - 1);
      assert Pow2(c) / 2 == Pow2(c - 1);
    }
  }

  /** The converse of Pow2Mono: a smaller power has a smaller exponent. */
  lemma Pow2Lt(a: nat, b: nat)
    ensures Pow2(a) < Pow2(b) ==> a < b
  {
    if b <= a {
      Pow2Mono(b, a);
    }
  }

  /** Exponents that bracket n from below (f) and from above (c) are at
      most one apart. */
  lemma Bracket(n: nat, f: nat, c: nat)
    requires Pow2(f) <= n < Pow2(f + 1) && n <= Pow2(c)
    requires c >= 1 ==> Pow2(c - 1) < n
    ensures f <= c <= f + 1
  {
    assert Pow2(c) < Pow2(c + 1);
    Pow2Lt(f, c + 1);
    if c >= 1 {
      Pow2Lt(c - 1, f + 1);
    }
  }

  /** ceil(log2 n) is floor(log2 n) or one more. */
  lemma CeilNearFloor(n: nat)
    requires n >= 1
    ensures FloorLog2(n) <= CeilLog2(n) <= FloorLog2(n) + 1
  {
    Bracket(n, FloorLog2(n), CeilLog2(n));
  }

  /** ceil(log2 n) is floor(log2 n) for a power of two and floor(log2 n) + 1
      otherwise. */
  lemma CeilVsFloor(n: nat)
    requires n >= 1
    ensures FloorLog2(n) <= CeilLog2(n) <= FloorLog2(n) + 1
    ensures CeilLog2(n) == FloorLog2(n) <==> IsPow2(n)
  {
    CeilNearFloor(n);
    IsPow2Exact(n);
    if n >= 2 {
      Pow2Lt(CeilLog2(n) - 1, FloorLog2(n));
    }
  }
}
