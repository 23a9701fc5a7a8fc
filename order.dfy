/** Order facts about a finite set of stored values: neighbours and extremes. */
module Order {

  /** `q` is the largest element of `s` strictly below `v`. */
  ghost predicate IsPred(s: set<int>, v: int, q: int)
  {
    q in s && q < v && forall t :: t in s && t < v ==> t <= q
  }

  /** `n` is the smallest element of `s` strictly above `v`. */
  ghost predicate IsSucc(s: set<int>, v: int, n: int)
  {
    n in s && v < n && forall t :: t in s && v < t ==> n <= t
  }

  ghost predicate NoneBelow(s: set<int>, v: int)
  {
    forall t :: t in s ==> v <= t
  }

  ghost predicate NoneAbove(s: set<int>, v: int)
  {
    forall t :: t in s ==> t <= v
  }

  ghost predicate IsLeast(s: set<int>, m: int)
  {
    m in s && forall t :: t in s ==> m <= t
  }

  ghost predicate IsGreatest(s: set<int>, m: int)
  {
    m in s && forall t :: t in s ==> t <= m
  }

  /** `abs(a - b)`. */
  function Dist(a: int, b: int): int
  {
    if a < b then b - a else a - b
  }

  /** `r` is an element of `s` at least as close to `v` as any other. */
  ghost predicate IsNearest(s: set<int>, v: int, r: int)
  {
    r in s && forall t :: t in s ==> Dist(r, v) <= Dist(t, v)
  }

  /** Stepping back from the successor of an absent value lands on its predecessor. */
  lemma SuccThenPred(s: set<int>, v: int, n: int, q: int)
    requires v !in s && IsSucc(s, v, n) && IsPred(s, n, q)
    ensures IsPred(s, v, q)
  {
  }

  /** Stepping forward from the predecessor of an absent value lands on its successor. */
  lemma PredThenSucc(s: set<int>, v: int, q: int, n: int)
    requires v !in s && IsPred(s, v, q) && IsSucc(s, q, n)
    ensures IsSucc(s, v, n)
  {
  }
}
