/** Facts about the state that `insert` builds, phase by phase: linking the new leaf into
    the chain, the descent that creates the missing path nodes, and the upward pass that
    repairs the threads. Every lemma is stated over plain values. */
module Grow {
  import opened Wrappers
  import opened Bits
  import opened Order
  import opened Layout
  import opened Shape

  /** `b` is `a` with nodes appended. */
  ghost predicate Extends<T>(a: seq<T>, b: seq<T>)
  {
    |a| <= |b| && forall i :: 0 <= i < |a| ==> b[i] == a[i]
  }

  /** `s` and `s'` hold the same values under the two children of prefix `p` at level `k`. */
  ghost predicate SameUnder(w: nat, s: set<int>, s': set<int>, k: int, p: int)
    requires -1 <= k < w - 1
  {
    forall t :: Prefix(w, t, k + 1) == 2 * p || Prefix(w, t, k + 1) == 2 * p + 1 ==> (t in s' <==> t in s)
  }

  /** A leaf reference stays valid when nodes are appended and the last table gains keys. */
  lemma LeafLinkCarry(lm: Table, lm': Table, value: seq<Option<int>>, value': seq<Option<int>>,
                      o: Option<int>)
    requires LeafLink(lm, value, o) && Extends(value, value')
    requires Target(value, o) in lm' && lm'[Target(value, o)] == lm[Target(value, o)]
    ensures LeafLink(lm', value', o) && Target(value', o) == Target(value, o)
  {
  }

  /** The thread rule at one node survives any change that leaves the node's slots, its
      children's table entries, the stored values under it and their leaves alone. */
  lemma SlotsCarry(w: nat, tables: seq<Table>, tables': seq<Table>, root: int, lm: Table, lm': Table,
                   value: seq<Option<int>>, value': seq<Option<int>>, left: seq<Option<int>>,
                   left': seq<Option<int>>, right: seq<Option<int>>, right': seq<Option<int>>,
                   s: set<int>, s': set<int>, k: int, p: int)
    requires -1 <= k < w - 1 && |tables| == w && |tables'| == w
    requires SlotsOK(w, tables, root, lm, value, left, right, s, k, p)
    requires NodeAt(tables', root, k, p) == NodeAt(tables, root, k, p)
    requires 2 * p in tables'[k + 1] <==> 2 * p in tables[k + 1]
    requires 2 * p + 1 in tables'[k + 1] <==> 2 * p + 1 in tables[k + 1]
    requires 2 * p in tables[k + 1] ==> tables'[k + 1][2 * p] == tables[k + 1][2 * p]
    requires 2 * p + 1 in tables[k + 1] ==> tables'[k + 1][2 * p + 1] == tables[k + 1][2 * p + 1]
    requires Extends(value, value') && SameUnder(w, s, s', k, p)
    requires forall m :: m in s && m in lm ==> m in lm' && lm'[m] == lm[m]
    requires var id := NodeAt(tables, root, k, p);
             id < |left'| && id < |right'| && left'[id] == left[id] && right'[id] == right[id]
    ensures SlotsOK(w, tables', root, lm', value', left', right', s', k, p)
  {
    var id := NodeAt(tables, root, k, p);
    var next, next' := tables[k + 1], tables'[k + 1];
    if 2 * p !in next && 2 * p + 1 in next {
      var m := Target(value, left[id]);
      assert IsMinUnder(w, s, k + 1, 2 * p + 1, m);
      LeafLinkCarry(lm, lm', value, value', left[id]);
      assert IsMinUnder(w, s', k + 1, 2 * p + 1, m);
    }
    if 2 * p + 1 !in next && 2 * p in next {
      var m := Target(value, right[id]);
      assert IsMaxUnder(w, s, k + 1, 2 * p, m);
      LeafLinkCarry(lm, lm', value, value', right[id]);
      assert IsMaxUnder(w, s', k + 1, 2 * p, m);
    }
  }

  /** Every stored value's leaf holds that value. */
  ghost predicate LeafValues(lm: Table, value: seq<Option<int>>, s: set<int>)
  {
    forall x :: x in s ==> x in lm && 0 <= lm[x] < |value| && value[lm[x]] == Some(x)
  }

  /** Inserting `v` (its successor's leaf is `succ`) leaves the predecessor link of another
      stored value `x` valid unless `x` is that successor. */
  lemma PrevAfter(lm: Table, value: seq<Option<int>>, s: set<int>, v: int, succ: Option<int>,
                  n0: int, value': seq<Option<int>>, o: Option<int>, x: int)
    requires LeafValues(lm, value, s) && v !in s && x in s && x != v
    requires NextOK(lm, value, succ, s, v) && n0 == |value| && value' == value + [Some(v)]
    requires PrevOK(lm, value, o, s, x)
    requires succ.Some? ==> lm[x] != succ.value
    ensures PrevOK(lm[v := n0], value', o, s + {v}, x)
  {
    if o.Some? {
      LeafLinkCarry(lm, lm[v := n0], value, value', o);
    }
    if v < x {
      var n := Target(value, succ);
      assert n != x;
    }
  }

  /** Mirror image of PrevAfter. */
  lemma NextAfter(lm: Table, value: seq<Option<int>>, s: set<int>, v: int, pred: Option<int>,
                  n0: int, value': seq<Option<int>>, o: Option<int>, x: int)
    requires LeafValues(lm, value, s) && v !in s && x in s && x != v
    requires PrevOK(lm, value, pred, s, v) && n0 == |value| && value' == value + [Some(v)]
    requires NextOK(lm, value, o, s, x)
    requires pred.Some? ==> lm[x] != pred.value
    ensures NextOK(lm[v := n0], value', o, s + {v}, x)
  {
    if o.Some? {
      LeafLinkCarry(lm, lm[v := n0], value, value', o);
    }
    if x < v {
      var q := Target(value, pred);
      assert q != x;
    }
  }

  /** The links of one leaf after the new leaf `n0` for `v` is linked in. */
  lemma LinkInAt(lm: Table, value: seq<Option<int>>, left: seq<Option<int>>, right: seq<Option<int>>,
                 s: set<int>, v: int, pred: Option<int>, succ: Option<int>, n0: int,
                 value': seq<Option<int>>, left': seq<Option<int>>, right': seq<Option<int>>, x: int)
    requires ChainOK(lm, value, left, right, s) && LeafValues(lm, value, s) && v !in s
    requires |left| == |value| && |right| == |value| && n0 == |value|
    requires PrevOK(lm, value, pred, s, v) && NextOK(lm, value, succ, s, v)
    requires value' == value + [Some(v)]
    requires left' == if succ.Some? then (left + [pred])[succ.value := Some(n0)] else left + [pred]
    requires right' == if pred.Some? then (right + [succ])[pred.value := Some(n0)] else right + [succ]
    ensures LinkedAt(lm[v := n0], value', left', right', s + {v}, x)
  {
    var lm', s' := lm[v := n0], s + {v};
    if x == v {
      if pred.Some? {
        LeafLinkCarry(lm, lm', value, value', pred);
      }
      if succ.Some? {
        LeafLinkCarry(lm, lm', value, value', succ);
      }
      assert left'[n0] == pred && right'[n0] == succ;
    } else if x in s {
      LinkOf(lm, value, left, right, s, x);
      var id := lm[x];
      if succ.Some? && id == succ.value {
        assert Target(value, succ) == x;
        assert PrevOK(lm', value', left'[id], s', x);
      } else {
        assert left'[id] == left[id];
        PrevAfter(lm, value, s, v, succ, n0, value', left[id], x);
      }
      if pred.Some? && id == pred.value {
        assert Target(value, pred) == x;
        assert NextOK(lm', value', right'[id], s', x);
      } else {
        assert right'[id] == right[id];
        NextAfter(lm, value, s, v, pred, n0, value', right[id], x);
      }
    }
  }

  /** Linking the new leaf `n0` for `v` between its predecessor `pred` and successor `succ`
      (`insert`'s `leaf = TrieNode(value, True, pred, succ)`, `pred.right = leaf`,
      `succ.left = leaf`) keeps the chain ascending and equal to the stored values. */
  lemma LinkIn(lm: Table, value: seq<Option<int>>, left: seq<Option<int>>, right: seq<Option<int>>,
               s: set<int>, v: int, pred: Option<int>, succ: Option<int>, n0: int,
               value': seq<Option<int>>, left': seq<Option<int>>, right': seq<Option<int>>)
    requires ChainOK(lm, value, left, right, s) && LeafValues(lm, value, s) && v !in s
    requires |left| == |value| && |right| == |value| && n0 == |value|
    requires PrevOK(lm, value, pred, s, v) && NextOK(lm, value, succ, s, v)
    requires value' == value + [Some(v)]
    requires left' == if succ.Some? then (left + [pred])[succ.value := Some(n0)] else left + [pred]
    requires right' == if pred.Some? then (right + [succ])[pred.value := Some(n0)] else right + [succ]
    ensures ChainOK(lm[v := n0], value', left', right', s + {v})
  {
    var lm', s' := lm[v := n0], s + {v};
    forall x ensures LinkedAt(lm', value', left', right', s', x) {
      LinkInAt(lm, value, left, right, s, v, pred, succ, n0, value', left', right', x);
    }
  }

  /** `_min` and `_max` move to the new leaf exactly when it is a new extreme, and then still
      mark the ends of the chain. */
  lemma EndsIn(lm: Table, value: seq<Option<int>>, lo: Option<int>, hi: Option<int>, s: set<int>,
               v: int, n0: int, value': seq<Option<int>>, lo': Option<int>, hi': Option<int>)
    requires EndsOK(lm, value, lo, hi, s) && v !in s && n0 == |value| && value' == value + [Some(v)]
    requires lo' == if lo.None? || v < Target(value, lo) then Some(n0) else lo
    requires hi' == if hi.None? || v > Target(value, hi) then Some(n0) else hi
    ensures EndsOK(lm[v := n0], value', lo', hi', s + {v})
  {
    if s != {} {
      LeafLinkCarry(lm, lm[v := n0], value, value', lo);
      LeafLinkCarry(lm, lm[v := n0], value, value', hi);
    }
  }

  /** The tables hold the keys of `T` plus `v`'s prefixes at the levels up to `level`, and
      every key of `T` keeps its node. */
  ghost predicate TablesGrown(w: nat, tables: seq<Table>, T: seq<Table>, v: int, level: int)
  {
    |tables| == w && |T| == w &&
    (forall k, p :: 0 <= k < w ==> (p in tables[k] <==> p in T[k] || (k <= level && p == Prefix(w, v, k)))) &&
    (forall k, p :: 0 <= k < w && p in T[k] ==> p in tables[k] && tables[k][p] == T[k][p])
  }

  /** The node for `v`'s prefix at level `k`, reached by the descent but not yet linked to its
      child on `v`'s side: that child is missing, and the slot on the other side holds the real
      child there or nothing. */
  ghost predicate Pending(w: nat, tables: seq<Table>, root: int, left: seq<Option<int>>,
                          right: seq<Option<int>>, v: int, k: int)
    requires -1 <= k < w - 1 && |tables| == w
  {
    var id := NodeAt(tables, root, k, Prefix(w, v, k));
    var q := Prefix(w, v, k + 1);
    var sib := if q % 2 == 0 then q + 1 else q - 1;
    0 <= id < |left| && id < |right| && q !in tables[k + 1] &&
    (if q % 2 == 0 then right[id] else left[id]) ==
      (if sib in tables[k + 1] then Some(tables[k + 1][sib]) else None)
  }

  /** The thread rule during the descent that has reached `level`, `d` being the level of
      `v`'s deepest ancestor before the insert: nodes off `v`'s path and the path nodes
      already linked obey it for `s + {v}`; path nodes above `d` still obey it for `s`; the
      node at `level` is pending. */
  ghost predicate DescentAt(w: nat, tables: seq<Table>, root: int, lm: Table, value: seq<Option<int>>,
                            left: seq<Option<int>>, right: seq<Option<int>>, s: set<int>, v: int,
                            d: int, level: int, k: int, p: int)
  {
    -1 <= k < w - 1 && |tables| == w && HasNode(tables, k, p) ==>
      if p != Prefix(w, v, k) || d <= k < level then
        SlotsOK(w, tables, root, lm, value, left, right, s + {v}, k, p)
      else if k < d then
        SlotsOK(w, tables, root, lm, value, left, right, s, k, p)
      else
        k == level && Pending(w, tables, root, left, right, v, k)
  }

  /** The thread rule during the upward pass that has reached level `lvl`: only path nodes
      above both `d` and `lvl` still obey it for the old set `s`. */
  ghost predicate AscentAt(w: nat, tables: seq<Table>, root: int, lm: Table, value: seq<Option<int>>,
                           left: seq<Option<int>>, right: seq<Option<int>>, s: set<int>, v: int,
                           d: int, lvl: int, k: int, p: int)
  {
    -1 <= k < w - 1 && |tables| == w && HasNode(tables, k, p) ==>
      if p == Prefix(w, v, k) && k < d && k <= lvl then
        SlotsOK(w, tables, root, lm, value, left, right, s, k, p)
      else
        SlotsOK(w, tables, root, lm, value, left, right, s + {v}, k, p)
  }

  /** The children of a node off `v`'s path are off it too. */
  lemma OffPath(w: nat, v: int, k: int, p: int)
    requires -1 <= k < w - 1 && p != Prefix(w, v, k)
    ensures Prefix(w, v, k + 1) != 2 * p && Prefix(w, v, k + 1) != 2 * p + 1
  {
    PrefixParent(w, v, k + 1);
  }

  /** Adding `v` changes nothing under an off-path node. */
  lemma SameUnderOff(w: nat, s: set<int>, v: int, k: int, p: int)
    requires -1 <= k < w - 1 && p != Prefix(w, v, k)
    ensures SameUnder(w, s, s + {v}, k, p)
  {
    OffPath(w, v, k, p);
  }

  /** Where the descent starts: right after the new leaf is linked into the chain, every node
      obeys DescentAt at level `d`. */
  lemma StartAt(w: nat, T: seq<Table>, root: int, lm: Table, value: seq<Option<int>>, leaf: seq<bool>,
                left: seq<Option<int>>, right: seq<Option<int>>, parent: seq<Option<int>>, depth: seq<int>,
                s: set<int>, v: int, d: int, n0: int, value': seq<Option<int>>,
                left': seq<Option<int>>, right': seq<Option<int>>, k: int, p: int)
    requires w >= 1 && |T| == w && lm == T[w - 1] && v !in s
    requires NodesOK(w, T, root, value, leaf, parent, depth)
    requires ThreadsOK(w, T, root, lm, value, left, right, s)
    requires |leaf| == |value| && |left| == |value| && |right| == |value| && n0 == |value|
    requires -1 <= d < w - 1 && forall k :: d < k < w ==> Prefix(w, v, k) !in T[k]
    requires Extends(value, value') && |left'| == |value'| && |right'| == |value'|
    requires forall i :: 0 <= i < |value| && !leaf[i] ==> left'[i] == left[i] && right'[i] == right[i]
    ensures DescentAt(w, T, root, lm[v := n0], value', left', right', s, v, d, d, k, p)
  {
    if -1 <= k < w - 1 && HasNode(T, k, p) {
      SlotsOf(w, T, root, lm, value, left, right, s, k, p);
      var id := NodeAt(T, root, k, p);
      if k >= 0 {
        EntryOf(w, T, root, value, leaf, parent, depth, k, p);
      }
      assert !leaf[id];
      var lm' := lm[v := n0];
      if p != Prefix(w, v, k) {
        SameUnderOff(w, s, v, k, p);
        SlotsCarry(w, T, T, root, lm, lm', value, value', left, left', right, right', s, s + {v}, k, p);
      } else if k < d {
        SlotsCarry(w, T, T, root, lm, lm', value, value', left, left', right, right', s, s, k, p);
      } else {
        assert k == d;
        PrefixParent(w, v, k + 1);
        assert Prefix(w, v, k + 1) !in T[k + 1];
      }
    }
  }

  /** The slot updates of one descent step at the node `node` for `v`'s prefix at `level`:
      the slot on `v`'s side gets the new `child`, the other side keeps its node or, when
      empty, gets the new leaf `n0` (`node.right = node.right or leaf`); no other existing
      slot changes, and a freshly appended child has empty slots. */
  ghost predicate SlotStep(w: nat, v: int, level: int, node: int, child: int, n0: int,
                           left: seq<Option<int>>, right: seq<Option<int>>,
                           left': seq<Option<int>>, right': seq<Option<int>>)
    requires -1 <= level < w - 1
  {
    0 <= node < |left| && node < |right| && |left| <= |left'| && |right| <= |right'| &&
    (forall i :: 0 <= i < |left| && i != node ==> left'[i] == left[i]) &&
    (forall i :: 0 <= i < |right| && i != node ==> right'[i] == right[i]) &&
    (child >= |left| ==> child < |left'| && child < |right'| && left'[child] == None && right'[child] == None) &&
    if Prefix(w, v, level + 1) % 2 == 0 then
      left'[node] == Some(child) && right'[node] == (if right[node].Some? then right[node] else Some(n0))
    else
      right'[node] == Some(child) && left'[node] == (if left[node].Some? then left[node] else Some(n0))
  }

  /** A descent step leaves the thread rule alone at every node except the one it links. */
  lemma DescentFrameAt(w: nat, tables: seq<Table>, tables': seq<Table>, root: int, lm: Table,
                       value: seq<Option<int>>, value': seq<Option<int>>, leaf: seq<bool>,
                       parent: seq<Option<int>>, depth: seq<int>, left: seq<Option<int>>,
                       right: seq<Option<int>>, left': seq<Option<int>>, right': seq<Option<int>>,
                       s: set<int>, v: int, d: int, level: int, node: int, child: int, n0: int, k: int, p: int)
    requires -1 <= d <= level < w - 1 && |tables| == w
    requires NodesOK(w, tables, root, value, leaf, parent, depth)
    requires HasNode(tables, level, Prefix(w, v, level))
    requires node == NodeAt(tables, root, level, Prefix(w, v, level))
    requires Prefix(w, v, level + 1) !in tables[level + 1]
    requires tables' == tables[level + 1 := tables[level + 1][Prefix(w, v, level + 1) := child]]
    requires Extends(value, value') && SlotStep(w, v, level, node, child, n0, left, right, left', right')
    requires DescentAt(w, tables, root, lm, value, left, right, s, v, d, level, k, p)
    requires !(k == level && p == Prefix(w, v, level)) && !(k == level + 1 && p == Prefix(w, v, level + 1))
    ensures DescentAt(w, tables', root, lm, value', left', right', s, v, d, level + 1, k, p)
  {
    if -1 <= k < w - 1 && HasNode(tables', k, p) {
      assert HasNode(tables, k, p);
      var id := NodeAt(tables, root, k, p);
      assert NodeAt(tables', root, k, p) == id;
      if id == node {
        Distinct(w, tables, root, value, leaf, parent, depth, k, p, level, Prefix(w, v, level));
      }
      if k == level {
        OffPath(w, v, k, p);
      }
      var s' := if p != Prefix(w, v, k) || d <= k < level then s + {v} else s;
      assert SlotsOK(w, tables, root, lm, value, left, right, s', k, p);
      SlotsCarry(w, tables, tables', root, lm, lm, value, value', left, left', right, right', s', s', k, p);
    }
  }

  /** The node a descent step links obeys the thread rule for `s + {v}` afterwards: its slot
      on `v`'s side is the real child, and the other slot is the real child there or, when
      that subtree is empty, the new leaf, which is the only value under the new child. */
  lemma DescentDoneAt(w: nat, tables: seq<Table>, tables': seq<Table>, root: int, lm: Table,
                      value: seq<Option<int>>, value': seq<Option<int>>, left: seq<Option<int>>,
                      right: seq<Option<int>>, left': seq<Option<int>>, right': seq<Option<int>>,
                      s: set<int>, v: int, level: int, node: int, child: int, n0: int)
    requires -1 <= level < w - 1 && |tables| == w
    requires Pending(w, tables, root, left, right, v, level)
    requires node == NodeAt(tables, root, level, Prefix(w, v, level))
    requires tables' == tables[level + 1 := tables[level + 1][Prefix(w, v, level + 1) := child]]
    requires SlotStep(w, v, level, node, child, n0, left, right, left', right')
    requires v in lm && lm[v] == n0 && 0 <= n0 < |value'| && value'[n0] == Some(v)
    requires forall t :: t in s ==> Prefix(w, t, level + 1) != Prefix(w, v, level + 1)
    ensures SlotsOK(w, tables', root, lm, value', left', right', s + {v}, level, Prefix(w, v, level))
  {
    var p, q := Prefix(w, v, level), Prefix(w, v, level + 1);
    PrefixParent(w, v, level + 1);
    assert NodeAt(tables', root, level, p) == node;
    assert LeafLink(lm, value', Some(n0)) && Target(value', Some(n0)) == v;
    if q % 2 == 0 {
      assert q == 2 * p;
      assert IsMaxUnder(w, s + {v}, level + 1, 2 * p, v);
    } else {
      assert q == 2 * p + 1;
      assert IsMinUnder(w, s + {v}, level + 1, 2 * p + 1, v);
    }
  }

  /** A child created by a descent step above the leaf level is pending: neither child of it
      exists yet and both its slots are empty. */
  lemma DescentNewAt(w: nat, T: seq<Table>, tables': seq<Table>, root: int, left': seq<Option<int>>,
                     right': seq<Option<int>>, s: set<int>, v: int, d: int, level: int, child: int)
    requires -1 <= d <= level && level + 1 < w - 1
    requires TablesExact(w, T, s) && TablesGrown(w, tables', T, v, level + 1)
    requires Prefix(w, v, level + 1) !in T[level + 1]
    requires NodeAt(tables', root, level + 1, Prefix(w, v, level + 1)) == child
    requires 0 <= child < |left'| && child < |right'| && left'[child] == None && right'[child] == None
    ensures Pending(w, tables', root, left', right', v, level + 1)
  {
    var q := Prefix(w, v, level + 1);
    var q' := Prefix(w, v, level + 2);
    PrefixParent(w, v, level + 2);
    var sib := if q' % 2 == 0 then q' + 1 else q' - 1;
    assert sib / 2 == q;
    if q' in T[level + 2] {
      Closed(w, T, s, v, level + 1, level + 2);
    }
    if sib in T[level + 2] {
      var t := WitnessOf(w, T, s, level + 2, sib);
      PrefixParent(w, t, level + 2);
      KeyOf(w, T, s, t, level + 1);
    }
  }

  /** One descent step takes DescentAt from `level` to `level + 1` at every node. */
  lemma DescentStepAt(w: nat, T: seq<Table>, tables: seq<Table>, tables': seq<Table>, root: int, lm: Table,
                      value: seq<Option<int>>, value': seq<Option<int>>, leaf: seq<bool>,
                      parent: seq<Option<int>>, depth: seq<int>, left: seq<Option<int>>,
                      right: seq<Option<int>>, left': seq<Option<int>>, right': seq<Option<int>>,
                      s: set<int>, v: int, d: int, level: int, node: int, child: int, n0: int, k: int, p: int)
    requires -1 <= d <= level < w - 1
    requires TablesExact(w, T, s) && forall j :: d < j < w ==> Prefix(w, v, j) !in T[j]
    requires TablesGrown(w, tables, T, v, level) && TablesGrown(w, tables', T, v, level + 1)
    requires NodesOK(w, tables, root, value, leaf, parent, depth)
    requires HasNode(tables, level, Prefix(w, v, level))
    requires node == NodeAt(tables, root, level, Prefix(w, v, level))
    requires tables' == tables[level + 1 := tables[level + 1][Prefix(w, v, level + 1) := child]]
    requires Extends(value, value') && SlotStep(w, v, level, node, child, n0, left, right, left', right')
    requires v in lm && lm[v] == n0 && 0 <= n0 < |value'| && value'[n0] == Some(v)
    requires level + 1 < w - 1 ==> child == |left|
    requires DescentAt(w, tables, root, lm, value, left, right, s, v, d, level, level, Prefix(w, v, level))
    requires DescentAt(w, tables, root, lm, value, left, right, s, v, d, level, k, p)
    ensures DescentAt(w, tables', root, lm, value', left', right', s, v, d, level + 1, k, p)
  {
    var q := Prefix(w, v, level + 1);
    assert q !in T[level + 1];
    if k == level && p == Prefix(w, v, level) {
      forall t | t in s ensures Prefix(w, t, level + 1) != q {
        KeyOf(w, T, s, t, level + 1);
      }
      DescentDoneAt(w, tables, tables', root, lm, value, value', left, right, left', right', s, v, level, node, child, n0);
    } else if k == level + 1 && p == q {
      if level + 1 < w - 1 {
        DescentNewAt(w, T, tables', root, left', right', s, v, d, level, child);
      }
    } else {
      DescentFrameAt(w, tables, tables', root, lm, value, value', leaf, parent, depth, left, right, left', right',
                     s, v, d, level, node, child, n0, k, p);
    }
  }

  /** Registering `v`'s next prefix extends the grown tables by one level. */
  lemma GrowStep(w: nat, T: seq<Table>, tables: seq<Table>, v: int, level: int, child: int)
    requires -1 <= level < w - 1 && TablesGrown(w, tables, T, v, level)
    requires Prefix(w, v, level + 1) !in T[level + 1]
    ensures TablesGrown(w, tables[level + 1 := tables[level + 1][Prefix(w, v, level + 1) := child]], T, v, level + 1)
  {
  }

  /** The entry invariant at one key after a descent step registers `child` for `v`'s prefix
      at `level + 1` and makes `node` its parent. */
  lemma NodesStepAt(w: nat, T: seq<Table>, tables: seq<Table>, tables': seq<Table>, root: int,
                    value: seq<Option<int>>, leaf: seq<bool>, parent: seq<Option<int>>, depth: seq<int>,
                    value': seq<Option<int>>, leaf': seq<bool>, parent': seq<Option<int>>, depth': seq<int>,
                    s: set<int>, v: int, d: int, level: int, node: int, child: int, n0: int, k: int, p: int)
    requires -1 <= d <= level < w - 1
    requires TablesExact(w, T, s) && v !in s && forall j :: d < j < w ==> Prefix(w, v, j) !in T[j]
    requires InRange(w, s) && 0 <= v < Pow2(w)
    requires TablesGrown(w, tables, T, v, level)
    requires NodesOK(w, tables, root, value, leaf, parent, depth)
    requires |leaf| == |value| && |parent| == |value| && |depth| == |value|
    requires node == NodeAt(tables, root, level, Prefix(w, v, level))
    requires tables' == tables[level + 1 := tables[level + 1][Prefix(w, v, level + 1) := child]]
    requires 0 <= n0 < |value| && value[n0] == Some(v) && depth[n0] == w - 1
    requires level + 1 == w - 1 ==> child == n0 && leaf[n0]
    requires level + 1 < w - 1 ==> child == |value| && value' == value + [Some(Prefix(w, v, level + 1))] &&
                                   leaf' == leaf + [false] && depth' == depth + [level + 1]
    requires level + 1 == w - 1 ==> value' == value && leaf' == leaf && depth' == depth
    requires |parent'| == |value'| && 0 <= child < |parent'| && parent'[child] == Some(node)
    requires forall i :: 0 <= i < |parent| && i != child ==> parent'[i] == parent[i]
    ensures EntryAt(w, tables', root, value', leaf', parent', depth', k, p)
  {
    var q := Prefix(w, v, level + 1);
    PrefixParent(w, v, level + 1);
    if 0 <= k < w && p in tables'[k] {
      if k == level + 1 && p == q {
        assert NodeAt(tables', root, level, q / 2) == node;
        PrefixEnds(w, v);
      } else {
        EntryOf(w, tables, root, value, leaf, parent, depth, k, p);
        var id := tables[k][p];
        assert tables'[k][p] == id;
        if k < w - 1 {
          assert depth[id] != depth[n0];
        } else {
          assert p in T[w - 1];
          var t := WitnessOf(w, T, s, w - 1, p);
          PrefixEnds(w, t);
        }
        assert id != child;
        if k - 1 == level + 1 && p / 2 == q {
          var t := WitnessOf(w, T, s, k, p);
          PrefixParent(w, t, k);
          KeyOf(w, T, s, t, level + 1);
        }
        assert NodeAt(tables', root, k - 1, p / 2) == NodeAt(tables, root, k - 1, p / 2);
      }
    }
  }

  /** The upward pass's repair of a left slot: a leaf holding a value above `v` is replaced by
      the new leaf `n0`. */
  function RepairLeft(slot: Option<int>, leaf: seq<bool>, value: seq<Option<int>>, v: int, n0: int): Option<int>
  {
    if slot.Some? && 0 <= slot.value < |leaf| && slot.value < |value| && leaf[slot.value] &&
       value[slot.value].Some? && value[slot.value].value > v
    then Some(n0) else slot
  }

  /** The repair of a right slot: a leaf holding a value below `v` is replaced by `n0`. */
  function RepairRight(slot: Option<int>, leaf: seq<bool>, value: seq<Option<int>>, v: int, n0: int): Option<int>
  {
    if slot.Some? && 0 <= slot.value < |leaf| && slot.value < |value| && leaf[slot.value] &&
       value[slot.value].Some? && value[slot.value].value < v
    then Some(n0) else slot
  }

  /** Repairing a node on `v`'s path makes it obey the thread rule for `s + {v}`, whether it
      obeyed it for the old set `s` (a stale thread) or already for `s + {v}` (then nothing
      changes). */
  lemma RepairAt(w: nat, tables: seq<Table>, root: int, value: seq<Option<int>>, leaf: seq<bool>,
                 parent: seq<Option<int>>, depth: seq<int>, left: seq<Option<int>>, right: seq<Option<int>>,
                 s: set<int>, v: int, k: int, nd: int, n0: int, left': seq<Option<int>>, right': seq<Option<int>>)
    requires -1 <= k < w - 1 && |tables| == w && v !in s && 0 <= v < Pow2(w)
    requires NodesOK(w, tables, root, value, leaf, parent, depth)
    requires Prefix(w, v, k + 1) in tables[k + 1] && v in tables[w - 1] && tables[w - 1][v] == n0
    requires nd == NodeAt(tables, root, k, Prefix(w, v, k))
    requires SlotsOK(w, tables, root, tables[w - 1], value, left, right, s, k, Prefix(w, v, k)) ||
             SlotsOK(w, tables, root, tables[w - 1], value, left, right, s + {v}, k, Prefix(w, v, k))
    requires left' == left[nd := RepairLeft(left[nd], leaf, value, v, n0)]
    requires right' == right[nd := RepairRight(right[nd], leaf, value, v, n0)]
    ensures SlotsOK(w, tables, root, tables[w - 1], value, left', right', s + {v}, k, Prefix(w, v, k))
  {
    var p, q, lm, next := Prefix(w, v, k), Prefix(w, v, k + 1), tables[w - 1], tables[k + 1];
    var s' := s + {v};
    PrefixParent(w, v, k + 1);
    PrefixEnds(w, v);
    EntryOf(w, tables, root, value, leaf, parent, depth, w - 1, v);
    assert LeafLink(lm, value, Some(n0)) && Target(value, Some(n0)) == v;
    // left slot
    if 2 * p in next {
      EntryOf(w, tables, root, value, leaf, parent, depth, k + 1, 2 * p);
      assert RepairLeft(left[nd], leaf, value, v, n0) == left[nd];
    } else {
      assert q == 2 * p + 1;
      var m := Target(value, left[nd]);
      EntryOf(w, tables, root, value, leaf, parent, depth, w - 1, m);
      if m > v {
        assert RepairLeft(left[nd], leaf, value, v, n0) == Some(n0);
        assert IsMinUnder(w, s', k + 1, 2 * p + 1, v);
      } else {
        assert RepairLeft(left[nd], leaf, value, v, n0) == left[nd];
        assert IsMinUnder(w, s', k + 1, 2 * p + 1, m);
      }
    }
    // right slot
    if 2 * p + 1 in next {
      EntryOf(w, tables, root, value, leaf, parent, depth, k + 1, 2 * p + 1);
      assert RepairRight(right[nd], leaf, value, v, n0) == right[nd];
    } else {
      assert q == 2 * p;
      var m := Target(value, right[nd]);
      EntryOf(w, tables, root, value, leaf, parent, depth, w - 1, m);
      if m < v {
        assert RepairRight(right[nd], leaf, value, v, n0) == Some(n0);
        assert IsMaxUnder(w, s', k + 1, 2 * p, v);
      } else {
        assert RepairRight(right[nd], leaf, value, v, n0) == right[nd];
        assert IsMaxUnder(w, s', k + 1, 2 * p, m);
      }
    }
  }

  /** One step of the upward pass (repairing the path node at `lvl`, or nothing at the leaf)
      takes AscentAt from `lvl` to `lvl - 1` at every node. */
  lemma AscentStepAt(w: nat, tables: seq<Table>, root: int, value: seq<Option<int>>, leaf: seq<bool>,
                     parent: seq<Option<int>>, depth: seq<int>, left: seq<Option<int>>, right: seq<Option<int>>,
                     s: set<int>, v: int, d: int, lvl: int, nd: int, n0: int,
                     left': seq<Option<int>>, right': seq<Option<int>>, k: int, p: int)
    requires w >= 1 && -1 <= lvl < w && |tables| == w && v !in s && 0 <= v < Pow2(w)
    requires TablesExact(w, tables, s + {v}) && NodesOK(w, tables, root, value, leaf, parent, depth)
    requires v in tables[w - 1] && tables[w - 1][v] == n0
    requires nd == NodeAt(tables, root, lvl, Prefix(w, v, lvl))
    requires lvl == w - 1 ==> left' == left && right' == right
    requires lvl < w - 1 ==> 0 <= nd < |left| && nd < |right| &&
                             left' == left[nd := RepairLeft(left[nd], leaf, value, v, n0)] &&
                             right' == right[nd := RepairRight(right[nd], leaf, value, v, n0)]
    requires lvl < w - 1 ==> AscentAt(w, tables, root, tables[w - 1], value, left, right, s, v, d, lvl, lvl, Prefix(w, v, lvl))
    requires AscentAt(w, tables, root, tables[w - 1], value, left, right, s, v, d, lvl, k, p)
    ensures AscentAt(w, tables, root, tables[w - 1], value, left', right', s, v, d, lvl - 1, k, p)
  {
    var lm := tables[w - 1];
    if -1 <= k < w - 1 && HasNode(tables, k, p) {
      if lvl < w - 1 && k == lvl && p == Prefix(w, v, lvl) {
        PrefixEnds(w, v);
        KeyOf(w, tables, s + {v}, v, lvl + 1);
        RepairAt(w, tables, root, value, leaf, parent, depth, left, right, s, v, lvl, nd, n0, left', right');
      } else if lvl < w - 1 {
        var id := NodeAt(tables, root, k, p);
        if id == nd {
          PrefixEnds(w, v);
          Distinct(w, tables, root, value, leaf, parent, depth, k, p, lvl, Prefix(w, v, lvl));
        }
        var s' := if p == Prefix(w, v, k) && k < d && k <= lvl then s else s + {v};
        SlotsCarry(w, tables, tables, root, lm, lm, value, value, left, left', right, right', s', s', k, p);
      }
    }
  }

  /** Every stored value's leaf is flagged as a leaf. */
  ghost predicate LeafFlags(lm: Table, leaf: seq<bool>, s: set<int>)
  {
    forall x :: x in s ==> x in lm && 0 <= lm[x] < |leaf| && leaf[lm[x]]
  }

  /** In a well-formed trie every stored value's leaf holds it and is flagged as a leaf. */
  lemma LeavesOf(w: nat, tables: seq<Table>, root: int, value: seq<Option<int>>, leaf: seq<bool>,
                 parent: seq<Option<int>>, depth: seq<int>, s: set<int>)
    requires w >= 1 && InRange(w, s) && TablesExact(w, tables, s)
    requires NodesOK(w, tables, root, value, leaf, parent, depth)
    ensures LeafValues(tables[w - 1], value, s) && LeafFlags(tables[w - 1], leaf, s)
  {
    forall x | x in s ensures x in tables[w - 1] && 0 <= tables[w - 1][x] < |value| &&
                              value[tables[w - 1][x]] == Some(x) &&
                              tables[w - 1][x] < |leaf| && leaf[tables[w - 1][x]] {
      PrefixEnds(w, x);
      KeyOf(w, tables, s, x, w - 1);
      EntryOf(w, tables, root, value, leaf, parent, depth, w - 1, x);
    }
  }

  /** The chain survives appended nodes and changes to the slots of non-leaf nodes. */
  lemma ChainCarry(lm: Table, value: seq<Option<int>>, value': seq<Option<int>>, leaf: seq<bool>,
                   left: seq<Option<int>>, right: seq<Option<int>>, left': seq<Option<int>>,
                   right': seq<Option<int>>, s: set<int>)
    requires ChainOK(lm, value, left, right, s) && LeafFlags(lm, leaf, s) && Extends(value, value')
    requires |left| <= |left'| && |right| <= |right'|
    requires forall i :: 0 <= i < |left| && i < |leaf| && leaf[i] ==> left'[i] == left[i]
    requires forall i :: 0 <= i < |right| && i < |leaf| && leaf[i] ==> right'[i] == right[i]
    ensures ChainOK(lm, value', left', right', s)
  {
    forall x ensures LinkedAt(lm, value', left', right', s, x) {
      if x in s {
        LinkOf(lm, value, left, right, s, x);
        var id := lm[x];
        var o, o' := left[id], right[id];
        if o.Some? && Target(value, o) in s {
          LeafLinkCarry(lm, lm, value, value', o);
        }
        if o'.Some? && Target(value, o') in s {
          LeafLinkCarry(lm, lm, value, value', o');
        }
      }
    }
  }

  /** The ends survive appended nodes. */
  lemma EndsCarry(lm: Table, value: seq<Option<int>>, value': seq<Option<int>>, lo: Option<int>,
                  hi: Option<int>, s: set<int>)
    requires EndsOK(lm, value, lo, hi, s) && Extends(value, value')
    ensures EndsOK(lm, value', lo, hi, s)
  {
    if s != {} {
      LeafLinkCarry(lm, lm, value, value', lo);
      LeafLinkCarry(lm, lm, value, value', hi);
    }
  }
}
