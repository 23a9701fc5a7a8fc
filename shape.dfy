/** Consequences of the trie's shape: prefix closure, distinct nodes, and where the
    descendant thread of the deepest matching ancestor leads. */
module Shape {
  import opened Wrappers
  import opened Bits
  import opened Order
  import opened Layout

  /** A stored value's prefix is a key at every level. */
  lemma KeyOf(w: nat, tables: seq<Table>, s: set<int>, t: int, k: int)
    requires TablesExact(w, tables, s) && t in s && 0 <= k < w
    ensures Prefix(w, t, k) in tables[k]
  {
  }

  /** The entry invariant at one key. */
  lemma EntryOf(w: nat, tables: seq<Table>, root: int, value: seq<Option<int>>, leaf: seq<bool>,
                parent: seq<Option<int>>, depth: seq<int>, k: int, p: int)
    requires NodesOK(w, tables, root, value, leaf, parent, depth) && 0 <= k < w && p in tables[k]
    ensures EntryOK(w, tables, root, value, leaf, parent, depth, k, p)
  {
    assert EntryAt(w, tables, root, value, leaf, parent, depth, k, p);
  }

  /** The thread invariant at one internal node. */
  lemma SlotsOf(w: nat, tables: seq<Table>, root: int, lm: Table, value: seq<Option<int>>,
                left: seq<Option<int>>, right: seq<Option<int>>, s: set<int>, k: int, p: int)
    requires ThreadsOK(w, tables, root, lm, value, left, right, s)
    requires -1 <= k < w - 1 && HasNode(tables, k, p)
    ensures SlotsOK(w, tables, root, lm, value, left, right, s, k, p)
  {
    assert SlotsAt(w, tables, root, lm, value, left, right, s, k, p);
  }

  /** The chain invariant at one stored value. */
  lemma LinkOf(lm: Table, value: seq<Option<int>>, left: seq<Option<int>>, right: seq<Option<int>>,
               s: set<int>, x: int)
    requires ChainOK(lm, value, left, right, s) && x in s
    ensures x in lm && 0 <= lm[x] < |left| && lm[x] < |right|
    ensures PrevOK(lm, value, left[lm[x]], s, x) && NextOK(lm, value, right[lm[x]], s, x)
  {
    assert LinkedAt(lm, value, left, right, s, x);
  }

  /** Every key of a level table is the prefix of some stored value. */
  lemma WitnessOf(w: nat, tables: seq<Table>, s: set<int>, k: int, p: int) returns (t: int)
    requires TablesExact(w, tables, s) && 0 <= k < w && p in tables[k]
    ensures t in s && Prefix(w, t, k) == p
  {
    t :| t in s && Prefix(w, t, k) == p;
  }

  /** Exact tables are prefix closed: a value's prefix present at one level is present above it. */
  lemma Closed(w: nat, tables: seq<Table>, s: set<int>, v: int, j: int, k: int)
    requires TablesExact(w, tables, s) && 0 <= j <= k < w && Prefix(w, v, k) in tables[k]
    ensures Prefix(w, v, j) in tables[j]
  {
    var t := WitnessOf(w, tables, s, k, Prefix(w, v, k));
    PrefixAgreeUp(w, t, v, j, k);
    KeyOf(w, tables, s, t, j);
  }

  /** The last level table is keyed by exactly the stored values. */
  lemma LeafKeys(w: nat, tables: seq<Table>, s: set<int>)
    requires w >= 1 && TablesExact(w, tables, s) && InRange(w, s)
    ensures tables[w - 1].Keys == s
  {
    forall t | t in s ensures t in tables[w - 1] {
      PrefixEnds(w, t);
      KeyOf(w, tables, s, t, w - 1);
    }
    forall p | p in tables[w - 1] ensures p in s {
      var t := WitnessOf(w, tables, s, w - 1, p);
      PrefixEnds(w, t);
    }
  }

  /** Distinct (level, prefix) pairs have distinct nodes. */
  lemma Distinct(w: nat, tables: seq<Table>, root: int, value: seq<Option<int>>, leaf: seq<bool>,
                 parent: seq<Option<int>>, depth: seq<int>, k: int, p: int, k': int, p': int)
    requires NodesOK(w, tables, root, value, leaf, parent, depth)
    requires HasNode(tables, k, p) && HasNode(tables, k', p')
    requires NodeAt(tables, root, k, p) == NodeAt(tables, root, k', p')
    ensures k == k' && p == p'
  {
    if k >= 0 {
      EntryOf(w, tables, root, value, leaf, parent, depth, k, p);
    }
    if k' >= 0 {
      EntryOf(w, tables, root, value, leaf, parent, depth, k', p');
    }
  }

  /** A stored value under `v`'s level-`d` prefix that does not share its level-(d+1)
      prefix lies on the other side of `v`. */
  lemma OtherSide(w: nat, v: int, t: int, d: int)
    requires -1 <= d < w - 1 && Prefix(w, t, d) == Prefix(w, v, d)
    requires Prefix(w, t, d + 1) != Prefix(w, v, d + 1)
    ensures Prefix(w, v, d + 1) % 2 == 0 ==> v < t && Prefix(w, t, d + 1) == Prefix(w, v, d + 1) + 1
    ensures Prefix(w, v, d + 1) % 2 == 1 ==> t < v && Prefix(w, t, d + 1) == Prefix(w, v, d + 1) - 1
  {
    PrefixParent(w, v, d + 1);
    PrefixParent(w, t, d + 1);
    if Prefix(w, v, d + 1) % 2 == 0 {
      PrefixOrder(w, v, t, d + 1);
    } else {
      PrefixOrder(w, t, v, d + 1);
    }
  }

  /** When no stored value shares `v`'s level-(d+1) prefix and `v` turns left there, the
      smallest value under the right sibling is `v`'s successor. */
  lemma MinUnderIsSucc(w: nat, s: set<int>, v: int, d: int, c: int)
    requires -1 <= d < w - 1 && Prefix(w, v, d + 1) % 2 == 0
    requires forall t :: t in s ==> Prefix(w, t, d + 1) != Prefix(w, v, d + 1)
    requires IsMinUnder(w, s, d + 1, Prefix(w, v, d + 1) + 1, c)
    ensures IsSucc(s, v, c) && Prefix(w, c, d) == Prefix(w, v, d)
  {
    PrefixParent(w, v, d + 1);
    PrefixParent(w, c, d + 1);
    PrefixOrder(w, v, c, d + 1);
    forall t | t in s && v < t ensures c <= t {
      if Prefix(w, t, d) == Prefix(w, v, d) {
        OtherSide(w, v, t, d);
      } else {
        PrefixMonotone(w, v, t, d);
        PrefixOrder(w, c, t, d);
      }
    }
  }

  /** Mirror image: when `v` turns right, the largest value under the left sibling is its
      predecessor. */
  lemma MaxUnderIsPred(w: nat, s: set<int>, v: int, d: int, c: int)
    requires -1 <= d < w - 1 && Prefix(w, v, d + 1) % 2 == 1
    requires forall t :: t in s ==> Prefix(w, t, d + 1) != Prefix(w, v, d + 1)
    requires IsMaxUnder(w, s, d + 1, Prefix(w, v, d + 1) - 1, c)
    ensures IsPred(s, v, c) && Prefix(w, c, d) == Prefix(w, v, d)
  {
    PrefixParent(w, v, d + 1);
    PrefixParent(w, c, d + 1);
    PrefixOrder(w, c, v, d + 1);
    forall t | t in s && t < v ensures t <= c {
      if Prefix(w, t, d) == Prefix(w, v, d) {
        OtherSide(w, v, t, d);
      } else {
        PrefixMonotone(w, t, v, d);
        PrefixOrder(w, t, c, d);
      }
    }
  }

  /** The thread on `v`'s side of its deepest matching ancestor leads to `v`'s successor
      (when `v` turns left there) or predecessor (when it turns right). */
  lemma ThreadNeighbour(w: nat, tables: seq<Table>, root: int, value: seq<Option<int>>, leaf: seq<bool>,
                        parent: seq<Option<int>>, depth: seq<int>, left: seq<Option<int>>,
                        right: seq<Option<int>>, s: set<int>, v: int, d: int)
    requires w >= 1 && InRange(w, s) && 0 <= v < Pow2(w) && v !in s && s != {}
    requires TablesExact(w, tables, s) && NodesOK(w, tables, root, value, leaf, parent, depth)
    requires ThreadsOK(w, tables, root, tables[w - 1], value, left, right, s)
    requires -1 <= d < w - 1 && HasNode(tables, d, Prefix(w, v, d))
    requires forall k :: d < k < w ==> Prefix(w, v, k) !in tables[k]
    ensures 0 <= NodeAt(tables, root, d, Prefix(w, v, d)) < |left|
    ensures NodeAt(tables, root, d, Prefix(w, v, d)) < |right|
    ensures Prefix(w, v, d + 1) % 2 == 0 ==>
              var child := left[NodeAt(tables, root, d, Prefix(w, v, d))];
              LeafLink(tables[w - 1], value, child) && IsSucc(s, v, Target(value, child)) &&
              Prefix(w, Target(value, child), d) == Prefix(w, v, d)
    ensures Prefix(w, v, d + 1) % 2 == 1 ==>
              var child := right[NodeAt(tables, root, d, Prefix(w, v, d))];
              LeafLink(tables[w - 1], value, child) && IsPred(s, v, Target(value, child)) &&
              Prefix(w, Target(value, child), d) == Prefix(w, v, d)
  {
    var p := Prefix(w, v, d);
    var a := NodeAt(tables, root, d, p);
    SiblingSide(w, tables, s, v, d);
    SlotsOf(w, tables, root, tables[w - 1], value, left, right, s, d, p);
    if Prefix(w, v, d + 1) % 2 == 0 {
      assert 2 * p !in tables[d + 1] && 2 * p + 1 in tables[d + 1];
      assert LeftSlotOK(w, tables[d + 1], tables[w - 1], value, left[a], s, d, p);
      assert IsMinUnder(w, s, d + 1, Prefix(w, v, d + 1) + 1, Target(value, left[a]));
      MinUnderIsSucc(w, s, v, d, Target(value, left[a]));
    } else {
      assert 2 * p + 1 !in tables[d + 1] && 2 * p in tables[d + 1];
      assert RightSlotOK(w, tables[d + 1], tables[w - 1], value, right[a], s, d, p);
      assert IsMaxUnder(w, s, d + 1, Prefix(w, v, d + 1) - 1, Target(value, right[a]));
      MaxUnderIsPred(w, s, v, d, Target(value, right[a]));
    }
  }

  /** Below `v`'s deepest ancestor at level `d` no stored value shares `v`'s next prefix, and
      the sibling prefix is present, since the ancestor has some stored value under it. */
  lemma SiblingSide(w: nat, tables: seq<Table>, s: set<int>, v: int, d: int)
    requires w >= 1 && InRange(w, s) && 0 <= v < Pow2(w) && s != {}
    requires TablesExact(w, tables, s) && -1 <= d < w - 1 && HasNode(tables, d, Prefix(w, v, d))
    requires forall k :: d < k < w ==> Prefix(w, v, k) !in tables[k]
    ensures forall t :: t in s ==> Prefix(w, t, d + 1) != Prefix(w, v, d + 1)
    ensures Prefix(w, v, d + 1) == 2 * Prefix(w, v, d) + Prefix(w, v, d + 1) % 2
    ensures Prefix(w, v, d + 1) % 2 == 0 ==> Prefix(w, v, d + 1) + 1 in tables[d + 1]
    ensures Prefix(w, v, d + 1) % 2 == 1 ==> Prefix(w, v, d + 1) - 1 in tables[d + 1]
  {
    var p := Prefix(w, v, d);
    PrefixParent(w, v, d + 1);
    forall t | t in s ensures Prefix(w, t, d + 1) != Prefix(w, v, d + 1) {
      KeyOf(w, tables, s, t, d + 1);
    }
    var u: int;
    if d == -1 {
      u :| u in s;
      RootPrefix(w, u, v);
    } else {
      u := WitnessOf(w, tables, s, d, p);
    }
    OtherSide(w, v, u, d);
    KeyOf(w, tables, s, u, d + 1);
  }

  /** Exact tables are prefix closed along every value. */
  lemma ClosedAlongAll(w: nat, tables: seq<Table>, s: set<int>, v: int)
    requires TablesExact(w, tables, s)
    ensures ClosedAlong(w, tables, v)
  {
    forall j, k | 0 <= j <= k < w && Prefix(w, v, k) in tables[k] ensures Prefix(w, v, j) in tables[j] {
      Closed(w, tables, s, v, j, k);
    }
  }

  /** Below `v`'s deepest ancestor at level `d`, every stored value lies on the side away from `v`. */
  lemma AncestorSide(w: nat, tables: seq<Table>, s: set<int>, v: int, d: int)
    requires TablesExact(w, tables, s) && -1 <= d < w - 1
    requires forall k :: d < k < w ==> Prefix(w, v, k) !in tables[k]
    ensures forall t :: t in s && Prefix(w, t, d) == Prefix(w, v, d) ==>
              (Prefix(w, v, d + 1) % 2 == 0 ==> v < t) && (Prefix(w, v, d + 1) % 2 == 1 ==> t < v)
  {
    forall t | t in s && Prefix(w, t, d) == Prefix(w, v, d)
      ensures (Prefix(w, v, d + 1) % 2 == 0 ==> v < t) && (Prefix(w, v, d + 1) % 2 == 1 ==> t < v)
    {
      KeyOf(w, tables, s, t, d + 1);
      OtherSide(w, v, t, d);
    }
  }

  /** Every value in range has the root's (empty) prefix. */
  lemma RootPrefix(w: nat, a: int, b: int)
    requires w >= 1 && 0 <= a < Pow2(w) && 0 <= b < Pow2(w)
    ensures Prefix(w, a, -1) == Prefix(w, b, -1)
  {
    PrefixEnds(w, a);
    PrefixEnds(w, b);
  }

  /** Choosing between the successor `n`, reached through the thread, and the predecessor `q`
      beyond it, with ties going to `q`, gives the nearest value; on a tie `n` shares the
      longer prefix with `v`. */
  lemma ChooseAbove(w: nat, s: set<int>, v: int, d: int, n: int, q: int, pick: int)
    requires w >= 1 && 0 <= v < Pow2(w) && InRange(w, s) && -1 <= d < w
    requires IsSucc(s, v, n) && IsPred(s, v, q) && Prefix(w, n, d) == Prefix(w, v, d)
    requires forall t :: t in s && Prefix(w, t, d) == Prefix(w, v, d) ==> v < t
    requires pick == if Dist(n, v) < Dist(q, v) then n else q
    ensures IsNearest(s, v, pick) && TiesToShorterPrefix(w, s, v, pick)
  {
    if pick == q {
      forall t | t in s && t != q && Dist(t, v) == Dist(q, v) ensures SharesLongerPrefix(w, t, q, v) {
        assert t == n;
        RootPrefix(w, q, v);
        assert Prefix(w, q, d) != Prefix(w, v, d);
        assert 0 <= d;
      }
    }
  }

  /** Mirror image of ChooseAbove: the predecessor `q` was reached through the thread and the
      successor `n` lies beyond it. */
  lemma ChooseBelow(w: nat, s: set<int>, v: int, d: int, q: int, n: int, pick: int)
    requires w >= 1 && 0 <= v < Pow2(w) && InRange(w, s) && -1 <= d < w
    requires IsPred(s, v, q) && IsSucc(s, v, n) && Prefix(w, q, d) == Prefix(w, v, d)
    requires forall t :: t in s && Prefix(w, t, d) == Prefix(w, v, d) ==> t < v
    requires pick == if Dist(q, v) < Dist(n, v) then q else n
    ensures IsNearest(s, v, pick) && TiesToShorterPrefix(w, s, v, pick)
  {
    if pick == n {
      forall t | t in s && t != n && Dist(t, v) == Dist(n, v) ensures SharesLongerPrefix(w, t, n, v) {
        assert t == q;
        RootPrefix(w, n, v);
        assert Prefix(w, n, d) != Prefix(w, v, d);
        assert 0 <= d;
      }
    }
  }

  /** When the thread leads to the successor `n` and nothing lies below it, `n` is nearest and
      has no rival at the same distance. */
  lemma OnlyAbove(w: nat, s: set<int>, v: int, n: int)
    requires IsSucc(s, v, n) && NoneBelow(s, n)
    ensures IsNearest(s, v, n) && TiesToShorterPrefix(w, s, v, n)
  {
  }

  /** Mirror image of OnlyAbove. */
  lemma OnlyBelow(w: nat, s: set<int>, v: int, q: int)
    requires IsPred(s, v, q) && NoneAbove(s, q)
    ensures IsNearest(s, v, q) && TiesToShorterPrefix(w, s, v, q)
  {
  }

  /** The deepest ancestor of `v` is a leaf exactly when `v` is stored, and then it is `v`'s
      leaf; in an empty trie it is the root. */
  lemma AncestorLeaf(w: nat, tables: seq<Table>, root: int, value: seq<Option<int>>, leaf: seq<bool>,
                     parent: seq<Option<int>>, depth: seq<int>, s: set<int>, v: int, d: int, a: int)
    requires w >= 1 && InRange(w, s) && 0 <= v < Pow2(w)
    requires TablesExact(w, tables, s) && NodesOK(w, tables, root, value, leaf, parent, depth)
    requires -1 <= d < w && HasNode(tables, d, Prefix(w, v, d)) && a == NodeAt(tables, root, d, Prefix(w, v, d))
    requires forall k :: d < k < w ==> Prefix(w, v, k) !in tables[k]
    ensures 0 <= a < |leaf| && (leaf[a] <==> v in s)
    ensures leaf[a] ==> a == tables[w - 1][v] && LeafLink(tables[w - 1], value, Some(a)) &&
                        Target(value, Some(a)) == v
    ensures !leaf[a] ==> d < w - 1
    ensures s == {} ==> d == -1
  {
    PrefixEnds(w, v);
    if d >= 0 {
      EntryOf(w, tables, root, value, leaf, parent, depth, d, Prefix(w, v, d));
      var t := WitnessOf(w, tables, s, d, Prefix(w, v, d));
    }
    if v in s {
      KeyOf(w, tables, s, v, w - 1);
    }
  }

  /** The root of an empty trie has both slots empty. */
  lemma EmptyRoot(w: nat, tables: seq<Table>, root: int, lm: Table, value: seq<Option<int>>,
                  left: seq<Option<int>>, right: seq<Option<int>>)
    requires w >= 1 && TablesExact(w, tables, {}) && ThreadsOK(w, tables, root, lm, value, left, right, {})
    ensures 0 <= root < |left| && root < |right| && left[root] == None && right[root] == None
  {
    SlotsOf(w, tables, root, lm, value, left, right, {}, -1, 0);
    if 0 in tables[0] {
      var t := WitnessOf(w, tables, {}, 0, 0);
    }
    if 1 in tables[0] {
      var t := WitnessOf(w, tables, {}, 0, 1);
    }
  }
}
