/** Powers of two and the bit prefixes that key the trie's level tables.

    A trie of width `w` stores values in [0, 2^w). The table at level `k`
    (0 <= k < w) is keyed by the top k+1 bits of a value, `v >> (w - k - 1)`;
    level -1 stands for the root, whose prefix is empty (always 0). */
module Bits {

  function Pow2(n: nat): (r: nat)
    ensures r >= 1
  {
    if n == 0 then 1 else 2 * Pow2(n - 1)
  }

  /** `v >> n`, one halving at a time. */
  function Shr(v: int, n: nat): int
  {
    if n == 0 then v else Shr(v, n - 1) / 2
  }

  /** `v >> (w - k - 1)`: the top k+1 bits of a w-bit value. */
  function Prefix(w: nat, v: int, k: int): int
    requires -1 <= k < w
  {
    Shr(v, w - k - 1)
  }

  lemma {:induction false} Pow2Monotone(a: nat, b: nat)
    requires a <= b
    ensures Pow2(a) <= Pow2(b)
  {
    if a < b {
      Pow2Monotone(a, b - 1);
    }
  }

  /** Division by a positive number is characterised by quotient and remainder. */
  lemma DivUnique(v: int, d: int, q: int, r: int)
    requires d > 0 && v == d * q + r && 0 <= r < d
    ensures v / d == q
  {
    var q', r' := v / d, v % d;
    assert v == d * q' + r';
    if q' > q {
      assert d * q' >= d * (q + 1) by { MulMonotone(d, q + 1, q'); }
      assert false;
    } else if q' < q {
      assert d * q >= d * (q' + 1) by { MulMonotone(d, q' + 1, q); }
      assert false;
    }
  }

  lemma MulMonotone(d: int, a: int, b: int)
    requires d > 0 && a <= b
    ensures d * a <= d * b
  {
    assert d * b - d * a == d * (b - a);
  }

  /** Shifting right by `n` is dividing by 2^n (floor division, as Python's `>>`). */
  lemma {:induction false} ShrDiv(v: int, n: nat)
    ensures Shr(v, n) == v / Pow2(n)
  {
    if n > 0 {
      ShrDiv(v, n - 1);
      DivHalf(v, Pow2(n - 1));
    }
  }

  /** Halving a prefix gives the prefix one level up: `(v >> s) >> 1 == v >> (s + 1)`. */
  lemma DivHalf(v: int, d: int)
    requires d > 0
    ensures (v / d) / 2 == v / (2 * d)
  {
    var q, r := v / (2 * d), v % (2 * d);
    assert v == (2 * d) * q + r;
    if r < d {
      DivUnique(v, d, 2 * q, r);
    } else {
      DivUnique(v, d, 2 * q + 1, r - d);
    }
    DivUnique(v / d, 2, q, (v / d) - 2 * q);
  }

  /** The prefix at the parent level is the prefix at this level with its last bit dropped. */
  lemma PrefixParent(w: nat, v: int, k: int)
    requires 0 <= k < w
    ensures Prefix(w, v, k) / 2 == Prefix(w, v, k - 1)
    ensures Prefix(w, v, k) == 2 * Prefix(w, v, k - 1) + Prefix(w, v, k) % 2
  {
  }

  /** Prefixes are monotone in the value at every level. */
  lemma PrefixMonotone(w: nat, a: int, b: int, k: int)
    requires -1 <= k < w && a <= b
    ensures Prefix(w, a, k) <= Prefix(w, b, k)
  {
    ShrMonotone(a, b, w - k - 1);
  }

  lemma {:induction false} ShrMonotone(a: int, b: int, n: nat)
    requires a <= b
    ensures Shr(a, n) <= Shr(b, n)
  {
    if n > 0 {
      ShrMonotone(a, b, n - 1);
    }
  }

  /** A smaller prefix at any level means a smaller value. */
  lemma PrefixOrder(w: nat, a: int, b: int, k: int)
    requires -1 <= k < w && Prefix(w, a, k) < Prefix(w, b, k)
    ensures a < b
  {
    if b <= a {
      PrefixMonotone(w, b, a, k);
    }
  }

  /** The deepest level's prefix is the value itself; the root's is 0 for every value in range. */
  lemma PrefixEnds(w: nat, v: int)
    requires w >= 1 && 0 <= v < Pow2(w)
    ensures Prefix(w, v, w - 1) == v
    ensures Prefix(w, v, -1) == 0
  {
    ShrDiv(v, w);
    DivUnique(v, Pow2(w), 0, v);
  }

  /** Two values that agree at a level agree at every level above it. */
  lemma {:induction false} PrefixAgreeUp(w: nat, a: int, b: int, j: int, k: int)
    requires -1 <= j <= k < w && Prefix(w, a, k) == Prefix(w, b, k)
    ensures Prefix(w, a, j) == Prefix(w, b, j)
    decreases k - j
  {
    if j < k {
      PrefixParent(w, a, k);
      PrefixParent(w, b, k);
      PrefixAgreeUp(w, a, b, j, k - 1);
    }
  }
}
