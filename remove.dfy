/** The steps of `remove`, stated over the plain values of the trie's state: the splice of
    the leaf out of the chain, the move of `_min` and `_max`, and the upward walk that deletes
    the path entries and clears the slots of the path nodes. */
module Removal {
  import opened Wrappers
  import opened Bits
  import opened Order
  import opened Input
  import opened Layout
  import opened Shape
  import opened Grow

  /** `slots` after `at.right = to` (or `at.left = to`), done only when `at` is a node. */
  function Relink(slots: seq<Option<int>>, at: Option<int>, to: Option<int>): (r: seq<Option<int>>)
    ensures |r| == |slots|
    ensures forall i :: 0 <= i < |slots| ==> r[i] == if at == Some(i) then to else slots[i]
  {
    if at.Some? && 0 <= at.value < |slots| then slots[at.value := to] else slots
  }

  /** `slots` with the slots of the nodes in `ids` set to None. */
  ghost function Cleared(slots: seq<Option<int>>, ids: set<int>): (r: seq<Option<int>>)
    ensures |r| == |slots|
    ensures forall i :: 0 <= i < |slots| && i in ids ==> r[i] == None
    ensures forall i :: 0 <= i < |slots| && i !in ids ==> r[i] == slots[i]
  {
    seq(|slots|, i requires 0 <= i < |slots| => if i in ids then None else slots[i])
  }

  /** The nodes on `v`'s path at the levels above `lvl`; the root, at level -1, is never one. */
  ghost function PathAbove(w: nat, T: seq<Table>, v: int, lvl: int): set<int>
  {
    set k | 0 <= k < w && lvl < k && k < |T| && Prefix(w, v, k) in T[k] :: T[k][Prefix(w, v, k)]
  }

  /** `tables` is `T` with `v`'s prefixes deleted at the levels above `lvl`. */
  ghost predicate DroppedAbove(w: nat, T: seq<Table>, tables: seq<Table>, v: int, lvl: int)
  {
    |T| == w && |tables| == w &&
    forall k :: 0 <= k < w ==> tables[k] == if k > lvl then T[k] - {Prefix(w, v, k)} else T[k]
  }

  /** After `v` leaves, the predecessor link `o` of another stored value `x` is still valid
      when it does not lead to `v`. */
  lemma PrevOut(lm: Table, value: seq<Option<int>>, s: set<int>, v: int, o: Option<int>, x: int)
    requires v in s && x in s && x != v && PrevOK(lm, value, o, s, x)
    requires !NoneBelow(s, x) ==> Target(value, o) != v
    ensures PrevOK(lm - {v}, value, o, s - {v}, x)
  {
    if !NoneBelow(s, x) {
      assert Target(value, o) in s - {v} && Target(value, o) < x;
    }
  }

  /** Mirror image of PrevOut. */
  lemma NextOut(lm: Table, value: seq<Option<int>>, s: set<int>, v: int, o: Option<int>, x: int)
    requires v in s && x in s && x != v && NextOK(lm, value, o, s, x)
    requires !NoneAbove(s, x) ==> Target(value, o) != v
    ensures NextOK(lm - {v}, value, o, s - {v}, x)
  {
    if !NoneAbove(s, x) {
      assert Target(value, o) in s - {v} && x < Target(value, o);
    }
  }

  /** When `x` is `v`'s successor, `v`'s predecessor link `o` is a valid predecessor link for
      `x` once `v` has left. */
  lemma PrevSkip(lm: Table, value: seq<Option<int>>, s: set<int>, v: int, o: Option<int>, x: int)
    requires v in s && IsSucc(s, v, x) && PrevOK(lm, value, o, s, v)
    ensures PrevOK(lm - {v}, value, o, s - {v}, x)
  {
    if NoneBelow(s, v) {
      assert NoneBelow(s - {v}, x) by {
        forall t | t in s - {v} ensures x <= t {
          assert v < t;
        }
      }
    } else {
      var q := Target(value, o);
      assert q in s - {v} && q < x;
      assert IsPred(s - {v}, x, q) by {
        forall t | t in s - {v} && t < x ensures t <= q {
          assert t < v;
        }
      }
    }
  }

  /** Mirror image of PrevSkip. */
  lemma NextSkip(lm: Table, value: seq<Option<int>>, s: set<int>, v: int, o: Option<int>, x: int)
    requires v in s && IsPred(s, v, x) && NextOK(lm, value, o, s, v)
    ensures NextOK(lm - {v}, value, o, s - {v}, x)
  {
    if NoneAbove(s, v) {
      assert NoneAbove(s - {v}, x) by {
        forall t | t in s - {v} ensures t <= x {
          assert t < v;
        }
      }
    } else {
      var n := Target(value, o);
      assert n in s - {v} && x < n;
      assert IsSucc(s - {v}, x, n) by {
        forall t | t in s - {v} && x < t ensures n <= t {
          assert v < t;
        }
      }
    }
  }

  /** The left slot of a remaining value's leaf after the splice. */
  lemma LeftOut(lm: Table, value: seq<Option<int>>, left: seq<Option<int>>, right: seq<Option<int>>,
                s: set<int>, v: int, n0: int, left': seq<Option<int>>, x: int)
    requires ChainOK(lm, value, left, right, s) && LeafValues(lm, value, s) && v in s && lm[v] == n0
    requires x in s && x != v && |left| == |value| && |right| == |value|
    requires left' == Relink(left, right[n0], left[n0])
    ensures 0 <= lm[x] < |left'| && PrevOK(lm - {v}, value, left'[lm[x]], s - {v}, x)
  {
    LinkOf(lm, value, left, right, s, v);
    LinkOf(lm, value, left, right, s, x);
    var id, succ := lm[x], right[n0];
    if !NoneBelow(s, x) && Target(value, left[id]) == v {
      assert IsSucc(s, v, x) by {
        forall t | t in s && v < t ensures x <= t {
          assert t < x ==> t <= v;
        }
      }
      assert !NoneAbove(s, v) by {
        assert x in s && v < x;
      }
      assert succ == Some(id);
      PrevSkip(lm, value, s, v, left[n0], x);
    } else {
      assert succ == Some(id) ==> IsSucc(s, v, x);
      assert succ != Some(id);
      PrevOut(lm, value, s, v, left[id], x);
    }
  }

  /** The right slot of a remaining value's leaf after the splice. */
  lemma RightOut(lm: Table, value: seq<Option<int>>, left: seq<Option<int>>, right: seq<Option<int>>,
                 s: set<int>, v: int, n0: int, right': seq<Option<int>>, x: int)
    requires ChainOK(lm, value, left, right, s) && LeafValues(lm, value, s) && v in s && lm[v] == n0
    requires x in s && x != v && |left| == |value| && |right| == |value|
    requires right' == Relink(right, left[n0], right[n0])
    ensures 0 <= lm[x] < |right'| && NextOK(lm - {v}, value, right'[lm[x]], s - {v}, x)
  {
    LinkOf(lm, value, left, right, s, v);
    LinkOf(lm, value, left, right, s, x);
    var id, pred := lm[x], left[n0];
    if !NoneAbove(s, x) && Target(value, right[id]) == v {
      assert IsPred(s, v, x) by {
        forall t | t in s && t < v ensures t <= x {
          assert x < t ==> v <= t;
        }
      }
      assert !NoneBelow(s, v) by {
        assert x in s && x < v;
      }
      assert pred == Some(id);
      NextSkip(lm, value, s, v, right[n0], x);
    } else {
      assert pred == Some(id) ==> IsPred(s, v, x);
      assert pred != Some(id);
      NextOut(lm, value, s, v, right[id], x);
    }
  }

  /** Splicing the leaf of `v` out (`pred.right = succ`, `succ.left = pred`) leaves the chain
      of the other stored values ascending and complete. */
  lemma LinkOut(lm: Table, value: seq<Option<int>>, left: seq<Option<int>>, right: seq<Option<int>>,
                s: set<int>, v: int, n0: int, left': seq<Option<int>>, right': seq<Option<int>>)
    requires ChainOK(lm, value, left, right, s) && LeafValues(lm, value, s) && v in s && lm[v] == n0
    requires |left| == |value| && |right| == |value|
    requires left' == Relink(left, right[n0], left[n0])
    requires right' == Relink(right, left[n0], right[n0])
    ensures ChainOK(lm - {v}, value, left', right', s - {v})
  {
    forall x ensures LinkedAt(lm - {v}, value, left', right', s - {v}, x) {
      if x in s && x != v {
        LeftOut(lm, value, left, right, s, v, n0, left', x);
        RightOut(lm, value, left, right, s, v, n0, right', x);
      }
    }
  }

  /** `_min` moves to the successor when it was `v`'s leaf, `_max` to the predecessor; the two
      still mark the ends of the chain of the other values (both None when none is left). */
  lemma EndsOut(lm: Table, value: seq<Option<int>>, left: seq<Option<int>>, right: seq<Option<int>>,
                lo: Option<int>, hi: Option<int>, s: set<int>, v: int, n0: int,
                lo': Option<int>, hi': Option<int>)
    requires ChainOK(lm, value, left, right, s) && LeafValues(lm, value, s) && v in s && lm[v] == n0
    requires EndsOK(lm, value, lo, hi, s) && 0 <= n0 < |left| && n0 < |right|
    requires lo' == if Target(value, lo) == v then right[n0] else lo
    requires hi' == if Target(value, hi) == v then left[n0] else hi
    ensures EndsOK(lm - {v}, value, lo', hi', s - {v})
  {
    LinkOf(lm, value, left, right, s, v);
    Lone(s, v);
    if s == {v} {
      assert s - {v} == {};
    }
  }

  /** A value that is both the least and has nothing above it is the only one. */
  lemma Lone(s: set<int>, v: int)
    requires v in s
    ensures IsLeast(s, v) && NoneAbove(s, v) ==> s == {v}
    ensures IsGreatest(s, v) && NoneBelow(s, v) ==> s == {v}
  {
    if (IsLeast(s, v) && NoneAbove(s, v)) || (IsGreatest(s, v) && NoneBelow(s, v)) {
      forall t | t in s ensures t == v {
        assert t <= v && v <= t;
      }
    }
  }

  /** Clearing the slots of nodes that are no remaining value's leaf keeps the chain. */
  lemma ChainCut(lm: Table, value: seq<Option<int>>, left: seq<Option<int>>, right: seq<Option<int>>,
                 s: set<int>, ids: set<int>)
    requires ChainOK(lm, value, left, right, s)
    requires forall x :: x in s ==> x in lm && lm[x] !in ids
    ensures ChainOK(lm, value, Cleared(left, ids), Cleared(right, ids), s)
  {
    forall x ensures LinkedAt(lm, value, Cleared(left, ids), Cleared(right, ids), s, x) {
      if x in s {
        assert LinkedAt(lm, value, left, right, s, x);
      }
    }
  }

  /** The only leaf on `v`'s path is `v`'s own: every other stored value's leaf is off it. */
  lemma PathAvoidsLeaves(w: nat, T: seq<Table>, root: int, value: seq<Option<int>>, leaf: seq<bool>,
                         parent: seq<Option<int>>, depth: seq<int>, s: set<int>, v: int, x: int)
    requires w >= 1 && InRange(w, s) && TablesExact(w, T, s) && NodesOK(w, T, root, value, leaf, parent, depth)
    requires v in s && x in s && x != v
    ensures x in T[w - 1] && T[w - 1][x] !in PathAbove(w, T, v, -1)
  {
    PrefixEnds(w, x);
    PrefixEnds(w, v);
    KeyOf(w, T, s, x, w - 1);
    EntryOf(w, T, root, value, leaf, parent, depth, w - 1, x);
    if T[w - 1][x] in PathAbove(w, T, v, -1) {
      var k :| -1 < k < w && Prefix(w, v, k) in T[k] && T[w - 1][x] == T[k][Prefix(w, v, k)];
      EntryOf(w, T, root, value, leaf, parent, depth, k, Prefix(w, v, k));
    }
  }

  /** The walk has just reached the node of `v`'s prefix at `lvl`: that node is not among the
      nodes already passed, and passing it adds it to them. */
  lemma PathStep(w: nat, T: seq<Table>, root: int, value: seq<Option<int>>, leaf: seq<bool>,
                 parent: seq<Option<int>>, depth: seq<int>, v: int, lvl: int)
    requires NodesOK(w, T, root, value, leaf, parent, depth) && -1 <= lvl < w
    requires HasNode(T, lvl, Prefix(w, v, lvl))
    ensures NodeAt(T, root, lvl, Prefix(w, v, lvl)) !in PathAbove(w, T, v, lvl)
    ensures PathAbove(w, T, v, lvl - 1) ==
              PathAbove(w, T, v, lvl) + (if lvl >= 0 then {NodeAt(T, root, lvl, Prefix(w, v, lvl))} else {})
  {
    var id := NodeAt(T, root, lvl, Prefix(w, v, lvl));
    if lvl >= 0 {
      EntryOf(w, T, root, value, leaf, parent, depth, lvl, Prefix(w, v, lvl));
    }
    if id in PathAbove(w, T, v, lvl) {
      var k :| lvl < k < w && Prefix(w, v, k) in T[k] && id == T[k][Prefix(w, v, k)];
      EntryOf(w, T, root, value, leaf, parent, depth, k, Prefix(w, v, k));
    }
    if lvl >= 0 {
      assert id in PathAbove(w, T, v, lvl - 1);
    }
  }

  /** The splice of `remove`: the leaf `n0` of `v` is cut out of the chain and `_min`/`_max`
      move off it. The neighbours' slots and the ends returned keep the chain of the other
      values ascending and complete. */
  method Splice(ghost lm: Table, value: seq<Option<int>>, left0: seq<Option<int>>, right0: seq<Option<int>>,
                ghost s: set<int>, v: int, n0: int, lo0: Option<int>, hi0: Option<int>)
    returns (lefts: seq<Option<int>>, rights: seq<Option<int>>, lo: Option<int>, hi: Option<int>)
    requires ChainOK(lm, value, left0, right0, s) && LeafValues(lm, value, s) && EndsOK(lm, value, lo0, hi0, s)
    requires v in s && lm[v] == n0 && |left0| == |value| && |right0| == |value|
    ensures lefts == Relink(left0, right0[n0], left0[n0]) && rights == Relink(right0, left0[n0], right0[n0])
    ensures lo == (if Target(value, lo0) == v then right0[n0] else lo0)
    ensures hi == (if Target(value, hi0) == v then left0[n0] else hi0)
    ensures ChainOK(lm - {v}, value, lefts, rights, s - {v}) && EndsOK(lm - {v}, value, lo, hi, s - {v})
  {
    LinkOf(lm, value, left0, right0, s, v);
    var pred, succ := left0[n0], right0[n0];
    lefts, rights := left0, right0;
    if pred.Some? {
      rights := rights[pred.value := succ];
    }
    if succ.Some? {
      lefts := lefts[succ.value := pred];
    }
    lo, hi := lo0, hi0;
    if lo.Some? && value[lo.value] == Some(v) {
      lo := succ;
    }
    if hi.Some? && value[hi.value] == Some(v) {
      hi := pred;
    }
    LinkOut(lm, value, left0, right0, s, v, n0, lefts, rights);
    EndsOut(lm, value, left0, right0, lo0, hi0, s, v, n0, lo, hi);
  }

  /** The upward walk of `remove`, from the leaf `n0` of the stored value `v`: at each level
      the node's value is deleted from the level's table and its slots are cleared, then the
      walk moves to its parent. At the root the table index is -1, which Python reads as the
      last table, and the key is the root's value None, which no table holds: the walk always
      ends in KeyError, after every prefix of `v` has been deleted, shared ones included. */
  method DeletePath(w: nat, T: seq<Table>, root: int, value: seq<Option<int>>, ghost leaf: seq<bool>,
                    left0: seq<Option<int>>, right0: seq<Option<int>>, parent0: seq<Option<int>>,
                    ghost depth: seq<int>, ghost s: set<int>, v: int, n0: int)
    returns (r: Result<()>, tables: seq<Table>, lefts: seq<Option<int>>, rights: seq<Option<int>>,
             parents: seq<Option<int>>)
    requires w >= 1 && InRange(w, s) && TablesExact(w, T, s) && NodesOK(w, T, root, value, leaf, parent0, depth)
    requires |left0| == |value| && |right0| == |value| && |parent0| == |value|
    requires v in s && v in T[w - 1] && T[w - 1][v] == n0
    ensures r == Err(KeyError)
    ensures DroppedAbove(w, T, tables, v, -1)
    ensures lefts == Cleared(left0, PathAbove(w, T, v, -1))
    ensures rights == Cleared(right0, PathAbove(w, T, v, -1))
    ensures parents == Cleared(parent0, PathAbove(w, T, v, -1))
  {
    PrefixEnds(w, v);
    tables, lefts, rights, parents := T, left0, right0, parent0;
    var level := w - 1;
    var node: Option<int> := Some(n0);
    while node.Some?
      invariant -1 <= level < w
      invariant node == Some(NodeAt(T, root, level, Prefix(w, v, level)))
      invariant DroppedAbove(w, T, tables, v, level)
      invariant lefts == Cleared(left0, PathAbove(w, T, v, level))
      invariant rights == Cleared(right0, PathAbove(w, T, v, level))
      invariant parents == Cleared(parent0, PathAbove(w, T, v, level))
      decreases level + 1
    {
      var nd := node.value;
      if level >= 0 {
        KeyOf(w, T, s, v, level);
      }
      PathStep(w, T, root, value, leaf, parent0, depth, v, level);
      if level >= 0 {
        EntryOf(w, T, root, value, leaf, parent0, depth, level, Prefix(w, v, level));
        PrefixParent(w, v, level);
      }
      var up := parents[nd];
      var idx := if level < 0 then level + w else level;
      var key := value[nd];
      if key.None? || key.value !in tables[idx] {
        return Err(KeyError), tables, lefts, rights, parents;
      }
      tables := tables[idx := tables[idx] - {key.value}];
      lefts, rights, parents := lefts[nd := None], rights[nd := None], parents[nd := None];
      node := up;
      level := level - 1;
    }
    r := Ok(());
  }

  /** The state `remove` leaves behind for a stored value `v` of the trie `T`: the leaf of `v`
      spliced out of the chain, `_min`/`_max` moved off it, every prefix of `v` deleted from
      its level (shared ones included) and the slots of every node on `v`'s path cleared. The
      leaves left are still chained in ascending order between `_min` and `_max`. */
  ghost predicate Removed(w: nat, T: seq<Table>, s: set<int>, v: int, left0: seq<Option<int>>, right0: seq<Option<int>>,
                          parent0: seq<Option<int>>, value: seq<Option<int>>, lo0: Option<int>, hi0: Option<int>,
                          tables: seq<Table>, lefts: seq<Option<int>>, rights: seq<Option<int>>,
                          parents: seq<Option<int>>, lo: Option<int>, hi: Option<int>)
  {
    |T| == w >= 1 && v in T[w - 1] && 0 <= T[w - 1][v] < |left0| && T[w - 1][v] < |right0| &&
    var n0, ids := T[w - 1][v], PathAbove(w, T, v, -1);
    DroppedAbove(w, T, tables, v, -1) &&
    lefts == Cleared(Relink(left0, right0[n0], left0[n0]), ids) &&
    rights == Cleared(Relink(right0, left0[n0], right0[n0]), ids) &&
    parents == Cleared(parent0, ids) &&
    lo == (if Target(value, lo0) == v then right0[n0] else lo0) &&
    hi == (if Target(value, hi0) == v then left0[n0] else hi0) &&
    tables[w - 1] == T[w - 1] - {v} &&
    ChainOK(tables[w - 1], value, lefts, rights, s - {v}) &&
    EndsOK(tables[w - 1], value, lo, hi, s - {v})
  }

  /** `remove` of a stored value `v`, from the splice to the KeyError at the root. */
  method RemoveFound(w: nat, T: seq<Table>, root: int, value: seq<Option<int>>, ghost leaf: seq<bool>,
                     left0: seq<Option<int>>, right0: seq<Option<int>>, parent0: seq<Option<int>>,
                     ghost depth: seq<int>, lo0: Option<int>, hi0: Option<int>, ghost s: set<int>, v: int)
    returns (r: Result<()>, tables: seq<Table>, lefts: seq<Option<int>>, rights: seq<Option<int>>,
             parents: seq<Option<int>>, lo: Option<int>, hi: Option<int>)
    requires TrieOK(w, T, root, value, leaf, left0, right0, parent0, depth, lo0, hi0, s) && v in s
    ensures r == Err(KeyError)
    ensures Removed(w, T, s, v, left0, right0, parent0, value, lo0, hi0, tables, lefts, rights, parents, lo, hi)
  {
    ghost var lm := T[w - 1];
    LeavesOf(w, T, root, value, leaf, parent0, depth, s);
    LinkOf(lm, value, left0, right0, s, v);
    var n0 := T[w - 1][v];
    var l1, r1;
    l1, r1, lo, hi := Splice(lm, value, left0, right0, s, v, n0, lo0, hi0);
    r, tables, lefts, rights, parents := DeletePath(w, T, root, value, leaf, l1, r1, parent0, depth, s, v, n0);
    PrefixEnds(w, v);
    ghost var ids := PathAbove(w, T, v, -1);
    forall x | x in s - {v} ensures x in lm - {v} && (lm - {v})[x] !in ids {
      PathAvoidsLeaves(w, T, root, value, leaf, parent0, depth, s, v, x);
    }
    ChainCut(lm - {v}, value, l1, r1, s - {v}, ids);
  }

  /** Deleting every prefix of `v` loses the prefixes it shares with the values left behind:
      a remaining value whose prefix at level `k` is `v`'s has no entry there any more, so
      the level tables no longer describe the remaining values. */
  lemma SharedPrefixLost(w: nat, T: seq<Table>, tables: seq<Table>, s: set<int>, v: int, x: int, k: int)
    requires DroppedAbove(w, T, tables, v, -1) && InRange(w, s) && v in s && x in s && x != v
    requires 0 <= k < w && Prefix(w, x, k) == Prefix(w, v, k)
    ensures Prefix(w, x, k) !in tables[k]
    ensures !TablesExact(w, tables, s - {v})
  {
    assert x in s - {v};
  }
}
