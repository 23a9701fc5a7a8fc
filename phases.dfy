/** The loop invariants of `insert`, bundled per phase, and the lemmas that carry them from
    one iteration to the next: the descent that registers `v`'s missing prefixes, and the
    upward pass that repairs the threads of `v`'s ancestors. */
module Phases {
  import opened Wrappers
  import opened Bits
  import opened Order
  import opened Layout
  import opened Shape
  import opened Grow

  /** The state of the descent that has registered `v`'s prefixes down to `level` and stands
      at `node`. `T` and `s` are the tables and the stored values before the insert, `d` the
      level of `v`'s deepest ancestor then, `n0` the new leaf and `lm` the last table as it
      will be once the descent is over. */
  ghost predicate DescentInv(w: nat, T: seq<Table>, s: set<int>, v: int, d: int, n0: int, lm: Table,
                             root: int, level: int, node: int, tables: seq<Table>,
                             value: seq<Option<int>>, leaf: seq<bool>, left: seq<Option<int>>,
                             right: seq<Option<int>>, parent: seq<Option<int>>, depth: seq<int>,
                             lo: Option<int>, hi: Option<int>)
  {
    w >= 1 && |T| == w && -1 <= d <= level <= w - 1 && d < w - 1 &&
    0 <= v < Pow2(w) && v !in s && InRange(w, s) &&
    TablesExact(w, T, s) && (forall j :: d < j < w ==> Prefix(w, v, j) !in T[j]) &&
    lm == T[w - 1][v := n0] &&
    TablesGrown(w, tables, T, v, level) &&
    HasNode(tables, level, Prefix(w, v, level)) &&
    node == NodeAt(tables, root, level, Prefix(w, v, level)) && 0 <= node < |value| &&
    (level == w - 1 ==> node == n0) &&
    ArenaOK(value, leaf, left, right, parent, depth) &&
    0 <= n0 < |value| && value[n0] == Some(v) && leaf[n0] && depth[n0] == w - 1 &&
    NodesOK(w, tables, root, value, leaf, parent, depth) &&
    ChainOK(lm, value, left, right, s + {v}) && LeafFlags(lm, leaf, s + {v}) &&
    EndsOK(lm, value, lo, hi, s + {v}) &&
    DescentAll(w, tables, root, lm, value, left, right, s, v, d, level)
  }

  ghost predicate DescentAll(w: nat, tables: seq<Table>, root: int, lm: Table, value: seq<Option<int>>,
                             left: seq<Option<int>>, right: seq<Option<int>>, s: set<int>, v: int,
                             d: int, level: int)
  {
    forall k, p :: DescentAt(w, tables, root, lm, value, left, right, s, v, d, level, k, p)
  }

  ghost predicate AscentAll(w: nat, tables: seq<Table>, root: int, lm: Table, value: seq<Option<int>>,
                            left: seq<Option<int>>, right: seq<Option<int>>, s: set<int>, v: int,
                            d: int, lvl: int)
  {
    forall k, p :: AscentAt(w, tables, root, lm, value, left, right, s, v, d, lvl, k, p)
  }

  /** The nodes of a well-formed arena keep their entries when nodes are appended. */
  lemma NodesCarry(w: nat, tables: seq<Table>, root: int, value: seq<Option<int>>, leaf: seq<bool>,
                   parent: seq<Option<int>>, depth: seq<int>, value': seq<Option<int>>,
                   leaf': seq<bool>, parent': seq<Option<int>>, depth': seq<int>)
    requires NodesOK(w, tables, root, value, leaf, parent, depth)
    requires Extends(value, value') && Extends(leaf, leaf') && Extends(parent, parent') && Extends(depth, depth')
    ensures NodesOK(w, tables, root, value', leaf', parent', depth')
  {
    forall k, p ensures EntryAt(w, tables, root, value', leaf', parent', depth', k, p) {
      if 0 <= k < w && p in tables[k] {
        EntryOf(w, tables, root, value, leaf, parent, depth, k, p);
      }
    }
  }

  /** The leaf `n0` for `v` appended to the arena and linked between `pred` and `succ`, with
      the ends moved to it when `v` is a new minimum or maximum. */
  ghost predicate LeafAdded(v: int, w: nat, pred: Option<int>, succ: Option<int>, n0: int,
                            value: seq<Option<int>>, leaf: seq<bool>, left: seq<Option<int>>,
                            right: seq<Option<int>>, parent: seq<Option<int>>, depth: seq<int>,
                            lo: Option<int>, hi: Option<int>,
                            value': seq<Option<int>>, leaf': seq<bool>, left': seq<Option<int>>,
                            right': seq<Option<int>>, parent': seq<Option<int>>, depth': seq<int>,
                            lo': Option<int>, hi': Option<int>)
  {
    n0 == |value| && |left| == n0 && |right| == n0 &&
    (pred.Some? ==> 0 <= pred.value < n0) && (succ.Some? ==> 0 <= succ.value < n0) &&
    value' == value + [Some(v)] && leaf' == leaf + [true] &&
    parent' == parent + [None] && depth' == depth + [w - 1] &&
    left' == (if succ.Some? then (left + [pred])[succ.value := Some(n0)] else left + [pred]) &&
    right' == (if pred.Some? then (right + [succ])[pred.value := Some(n0)] else right + [succ]) &&
    lo' == (if lo.None? || v < Target(value, lo) then Some(n0) else lo) &&
    hi' == (if hi.None? || v > Target(value, hi) then Some(n0) else hi)
  }

  /** Linking the new leaf keeps the chain, the leaf flags and the ends, and only touches
      the slots of leaves. */
  lemma BeginChain(w: nat, T: seq<Table>, s: set<int>, v: int, root: int,
                   value: seq<Option<int>>, leaf: seq<bool>, left: seq<Option<int>>,
                   right: seq<Option<int>>, parent: seq<Option<int>>, depth: seq<int>,
                   lo: Option<int>, hi: Option<int>, pred: Option<int>, succ: Option<int>, n0: int,
                   value': seq<Option<int>>, leaf': seq<bool>, left': seq<Option<int>>,
                   right': seq<Option<int>>, parent': seq<Option<int>>, depth': seq<int>,
                   lo': Option<int>, hi': Option<int>)
    requires w >= 1 && InRange(w, s) && 0 <= v < Pow2(w) && v !in s
    requires ArenaOK(value, leaf, left, right, parent, depth)
    requires TablesExact(w, T, s) && NodesOK(w, T, root, value, leaf, parent, depth)
    requires ChainOK(T[w - 1], value, left, right, s) && EndsOK(T[w - 1], value, lo, hi, s)
    requires PrevOK(T[w - 1], value, pred, s, v) && NextOK(T[w - 1], value, succ, s, v)
    requires LeafAdded(v, w, pred, succ, n0, value, leaf, left, right, parent, depth, lo, hi,
                       value', leaf', left', right', parent', depth', lo', hi')
    ensures ChainOK(T[w - 1][v := n0], value', left', right', s + {v})
    ensures LeafFlags(T[w - 1][v := n0], leaf', s + {v})
    ensures EndsOK(T[w - 1][v := n0], value', lo', hi', s + {v})
    ensures pred.Some? ==> 0 <= pred.value < |value| && leaf[pred.value]
    ensures succ.Some? ==> 0 <= succ.value < |value| && leaf[succ.value]
  {
    var lm := T[w - 1];
    var lm' := lm[v := n0];
    LeavesOf(w, T, root, value, leaf, parent, depth, s);
    LinkIn(lm, value, left, right, s, v, pred, succ, n0, value', left', right');
    EndsIn(lm, value, lo, hi, s, v, n0, value', lo', hi');
    forall x | x in s + {v} ensures x in lm' && 0 <= lm'[x] < |leaf'| && leaf'[lm'[x]] {
      if x != v {
        assert leaf'[lm[x]] == leaf[lm[x]];
      }
    }
  }

  /** Appending the linked leaf keeps every slot and parent in range and every entry of the
      tables. */
  lemma BeginArena(w: nat, T: seq<Table>, v: int, root: int,
                   value: seq<Option<int>>, leaf: seq<bool>, left: seq<Option<int>>,
                   right: seq<Option<int>>, parent: seq<Option<int>>, depth: seq<int>,
                   lo: Option<int>, hi: Option<int>, pred: Option<int>, succ: Option<int>, n0: int,
                   value': seq<Option<int>>, leaf': seq<bool>, left': seq<Option<int>>,
                   right': seq<Option<int>>, parent': seq<Option<int>>, depth': seq<int>,
                   lo': Option<int>, hi': Option<int>)
    requires ArenaOK(value, leaf, left, right, parent, depth) && NodesOK(w, T, root, value, leaf, parent, depth)
    requires LeafAdded(v, w, pred, succ, n0, value, leaf, left, right, parent, depth, lo, hi,
                       value', leaf', left', right', parent', depth', lo', hi')
    requires pred.Some? ==> 0 <= pred.value < |value| && leaf[pred.value]
    requires succ.Some? ==> 0 <= succ.value < |value| && leaf[succ.value]
    ensures ArenaOK(value', leaf', left', right', parent', depth')
    ensures NodesOK(w, T, root, value', leaf', parent', depth')
    ensures Extends(value, value')
    ensures forall i :: 0 <= i < |value| && !leaf[i] ==> left'[i] == left[i] && right'[i] == right[i]
  {
    NodesCarry(w, T, root, value, leaf, parent, depth, value', leaf', parent', depth');
  }

  /** Before the descent every node obeys DescentAt at `v`'s deepest ancestor's level `d`. */
  lemma BeginSlots(w: nat, T: seq<Table>, s: set<int>, v: int, root: int,
                   value: seq<Option<int>>, leaf: seq<bool>, left: seq<Option<int>>,
                   right: seq<Option<int>>, parent: seq<Option<int>>, depth: seq<int>, n0: int,
                   value': seq<Option<int>>, left': seq<Option<int>>, right': seq<Option<int>>, d: int)
    requires w >= 1 && |T| == w && v !in s
    requires ArenaOK(value, leaf, left, right, parent, depth) && NodesOK(w, T, root, value, leaf, parent, depth)
    requires ThreadsOK(w, T, root, T[w - 1], value, left, right, s)
    requires n0 == |value| && -1 <= d < w - 1 && forall k :: d < k < w ==> Prefix(w, v, k) !in T[k]
    requires Extends(value, value') && |left'| == |value'| && |right'| == |value'|
    requires forall i :: 0 <= i < |value| && !leaf[i] ==> left'[i] == left[i] && right'[i] == right[i]
    ensures DescentAll(w, T, root, T[w - 1][v := n0], value', left', right', s, v, d, d)
  {
    var lm' := T[w - 1][v := n0];
    forall k, p ensures DescentAt(w, T, root, lm', value', left', right', s, v, d, d, k, p) {
      StartAt(w, T, root, T[w - 1], value, leaf, left, right, parent, depth, s, v, d, n0, value', left', right', k, p);
    }
  }

  /** The state right after the new leaf `n0` is appended and linked between `pred` and `succ`,
      the ends updated and `v`'s deepest ancestor `node` at level `d` found, is the start of
      the descent. */
  lemma DescentBegin(w: nat, T: seq<Table>, s: set<int>, v: int, root: int,
                     value: seq<Option<int>>, leaf: seq<bool>, left: seq<Option<int>>,
                     right: seq<Option<int>>, parent: seq<Option<int>>, depth: seq<int>,
                     lo: Option<int>, hi: Option<int>, pred: Option<int>, succ: Option<int>, n0: int,
                     value': seq<Option<int>>, leaf': seq<bool>, left': seq<Option<int>>,
                     right': seq<Option<int>>, parent': seq<Option<int>>, depth': seq<int>,
                     lo': Option<int>, hi': Option<int>, d: int, node: int)
    requires w >= 1 && InRange(w, s) && 0 <= v < Pow2(w) && v !in s
    requires ArenaOK(value, leaf, left, right, parent, depth)
    requires TablesExact(w, T, s) && NodesOK(w, T, root, value, leaf, parent, depth)
    requires ChainOK(T[w - 1], value, left, right, s)
    requires ThreadsOK(w, T, root, T[w - 1], value, left, right, s)
    requires EndsOK(T[w - 1], value, lo, hi, s)
    requires PrevOK(T[w - 1], value, pred, s, v) && NextOK(T[w - 1], value, succ, s, v)
    requires LeafAdded(v, w, pred, succ, n0, value, leaf, left, right, parent, depth, lo, hi,
                       value', leaf', left', right', parent', depth', lo', hi')
    requires -1 <= d < w && (d == -1 ==> node == root)
    requires d >= 0 ==> Prefix(w, v, d) in T[d] && node == T[d][Prefix(w, v, d)]
    requires forall k :: d < k < w ==> Prefix(w, v, k) !in T[k]
    ensures DescentInv(w, T, s, v, d, n0, T[w - 1][v := n0], root, d, node, T,
                       value', leaf', left', right', parent', depth', lo', hi')
  {
    PrefixEnds(w, v);
    assert d < w - 1;
    BeginChain(w, T, s, v, root, value, leaf, left, right, parent, depth, lo, hi, pred, succ, n0,
               value', leaf', left', right', parent', depth', lo', hi');
    BeginArena(w, T, v, root, value, leaf, left, right, parent, depth, lo, hi, pred, succ, n0,
               value', leaf', left', right', parent', depth', lo', hi');
    BeginSlots(w, T, s, v, root, value, leaf, left, right, parent, depth, n0, value', left', right', d);
    if d >= 0 {
      EntryOf(w, T, root, value, leaf, parent, depth, d, Prefix(w, v, d));
      forall k | 0 <= k <= d ensures Prefix(w, v, k) in T[k] {
        Closed(w, T, s, v, k, d);
      }
    }
    assert TablesGrown(w, T, T, v, d);
  }

  /** The arrays after a descent step has made room for `child`: unchanged at the last level,
      where the child is the new leaf `n0`, else with a fresh inner node for `v`'s prefix at
      `level + 1` appended. */
  ghost predicate ChildMade(w: nat, v: int, level: int, n0: int, child: int,
                            value: seq<Option<int>>, leaf: seq<bool>, left: seq<Option<int>>,
                            right: seq<Option<int>>, parent: seq<Option<int>>, depth: seq<int>,
                            value1: seq<Option<int>>, leaf1: seq<bool>, left1: seq<Option<int>>,
                            right1: seq<Option<int>>, parent1: seq<Option<int>>, depth1: seq<int>)
  {
    -1 <= level < w - 1 &&
    (level + 1 == w - 1 ==> child == n0 && value1 == value && leaf1 == leaf && left1 == left &&
                            right1 == right && parent1 == parent && depth1 == depth) &&
    (level + 1 < w - 1 ==> child == |value| && value1 == value + [Some(Prefix(w, v, level + 1))] &&
                           leaf1 == leaf + [false] && left1 == left + [None] && right1 == right + [None] &&
                           parent1 == parent + [None] && depth1 == depth + [level + 1])
  }

  /** `child` hung under `node`: its parent is `node`, `node`'s slot on `v`'s side points at
      it, and `node`'s other slot, when empty, gets the new leaf `n0`. */
  ghost predicate ChildHung(w: nat, v: int, level: int, node: int, child: int, n0: int,
                            left1: seq<Option<int>>, right1: seq<Option<int>>, parent1: seq<Option<int>>,
                            left': seq<Option<int>>, right': seq<Option<int>>, parent': seq<Option<int>>)
  {
    -1 <= level < w - 1 && 0 <= node < |left1| && node < |right1| && 0 <= child < |parent1| &&
    parent' == parent1[child := Some(node)] &&
    if Prefix(w, v, level + 1) % 2 == 0 then
      left' == left1[node := Some(child)] &&
      right' == right1[node := if right1[node].Some? then right1[node] else Some(n0)]
    else
      right' == right1[node := Some(child)] &&
      left' == left1[node := if left1[node].Some? then left1[node] else Some(n0)]
  }

  /** A descent step keeps every slot and parent in range and the entry invariant at every key. */
  lemma StepNodes(w: nat, T: seq<Table>, s: set<int>, v: int, d: int, n0: int, root: int,
                  level: int, node: int, tables: seq<Table>, value: seq<Option<int>>, leaf: seq<bool>,
                  left: seq<Option<int>>, right: seq<Option<int>>, parent: seq<Option<int>>,
                  depth: seq<int>, child: int,
                  tables': seq<Table>, value1: seq<Option<int>>, leaf1: seq<bool>,
                  left1: seq<Option<int>>, right1: seq<Option<int>>, parent1: seq<Option<int>>,
                  depth1: seq<int>, left': seq<Option<int>>, right': seq<Option<int>>,
                  parent': seq<Option<int>>)
    requires -1 <= d <= level < w - 1
    requires TablesExact(w, T, s) && v !in s && forall j :: d < j < w ==> Prefix(w, v, j) !in T[j]
    requires InRange(w, s) && 0 <= v < Pow2(w)
    requires TablesGrown(w, tables, T, v, level)
    requires ArenaOK(value, leaf, left, right, parent, depth) && NodesOK(w, tables, root, value, leaf, parent, depth)
    requires node == NodeAt(tables, root, level, Prefix(w, v, level)) && 0 <= node < |value|
    requires 0 <= n0 < |value| && value[n0] == Some(v) && leaf[n0] && depth[n0] == w - 1
    requires tables' == tables[level + 1 := tables[level + 1][Prefix(w, v, level + 1) := child]]
    requires ChildMade(w, v, level, n0, child, value, leaf, left, right, parent, depth,
                       value1, leaf1, left1, right1, parent1, depth1)
    requires ChildHung(w, v, level, node, child, n0, left1, right1, parent1, left', right', parent')
    ensures ArenaOK(value1, leaf1, left', right', parent', depth1)
    ensures NodesOK(w, tables', root, value1, leaf1, parent', depth1)
  {
    forall k, p ensures EntryAt(w, tables', root, value1, leaf1, parent', depth1, k, p) {
      NodesStepAt(w, T, tables, tables', root, value, leaf, parent, depth, value1, leaf1, parent', depth1,
                  s, v, d, level, node, child, n0, k, p);
    }
    assert root != child;
  }

  /** A descent step keeps the chain, the leaf flags and the ends: it only touches the slots
      of the inner node `node` and appends nodes. */
  lemma StepChain(w: nat, v: int, level: int, node: int, child: int, n0: int, s: set<int>, lm: Table,
                  value: seq<Option<int>>, leaf: seq<bool>, left: seq<Option<int>>,
                  right: seq<Option<int>>, parent: seq<Option<int>>, depth: seq<int>,
                  lo: Option<int>, hi: Option<int>,
                  value1: seq<Option<int>>, leaf1: seq<bool>,
                  left1: seq<Option<int>>, right1: seq<Option<int>>, parent1: seq<Option<int>>,
                  depth1: seq<int>, left': seq<Option<int>>, right': seq<Option<int>>,
                  parent': seq<Option<int>>)
    requires ArenaOK(value, leaf, left, right, parent, depth) && 0 <= node < |value| && !leaf[node]
    requires ChainOK(lm, value, left, right, s) && LeafFlags(lm, leaf, s) && EndsOK(lm, value, lo, hi, s)
    requires ChildMade(w, v, level, n0, child, value, leaf, left, right, parent, depth,
                       value1, leaf1, left1, right1, parent1, depth1)
    requires ChildHung(w, v, level, node, child, n0, left1, right1, parent1, left', right', parent')
    ensures ChainOK(lm, value1, left', right', s) && LeafFlags(lm, leaf1, s) && EndsOK(lm, value1, lo, hi, s)
    ensures Extends(value, value1) && SlotStep(w, v, level, node, child, n0, left, right, left', right')
  {
    ChainCarry(lm, value, value1, leaf, left, right, left', right', s);
    forall x | x in s ensures 0 <= lm[x] < |leaf1| && leaf1[lm[x]] {
      assert leaf1[lm[x]] == leaf[lm[x]];
    }
    EndsCarry(lm, value, value1, lo, hi, s);
  }

  /** A descent step carries DescentAt from `level` to `level + 1` at every node. */
  lemma StepSlots(w: nat, T: seq<Table>, s: set<int>, v: int, d: int, n0: int, lm: Table, root: int,
                  level: int, node: int, tables: seq<Table>, value: seq<Option<int>>, leaf: seq<bool>,
                  left: seq<Option<int>>, right: seq<Option<int>>, parent: seq<Option<int>>,
                  depth: seq<int>, child: int, tables': seq<Table>, value1: seq<Option<int>>,
                  left': seq<Option<int>>, right': seq<Option<int>>)
    requires -1 <= d <= level < w - 1
    requires TablesExact(w, T, s) && forall j :: d < j < w ==> Prefix(w, v, j) !in T[j]
    requires TablesGrown(w, tables, T, v, level) && TablesGrown(w, tables', T, v, level + 1)
    requires NodesOK(w, tables, root, value, leaf, parent, depth)
    requires HasNode(tables, level, Prefix(w, v, level))
    requires node == NodeAt(tables, root, level, Prefix(w, v, level))
    requires tables' == tables[level + 1 := tables[level + 1][Prefix(w, v, level + 1) := child]]
    requires Extends(value, value1) && SlotStep(w, v, level, node, child, n0, left, right, left', right')
    requires v in lm && lm[v] == n0 && 0 <= n0 < |value1| && value1[n0] == Some(v)
    requires level + 1 < w - 1 ==> child == |left|
    requires DescentAll(w, tables, root, lm, value, left, right, s, v, d, level)
    ensures DescentAll(w, tables', root, lm, value1, left', right', s, v, d, level + 1)
  {
    assert DescentAt(w, tables, root, lm, value, left, right, s, v, d, level, level, Prefix(w, v, level));
    var next := level + 1;
    forall k, p ensures DescentAt(w, tables', root, lm, value1, left', right', s, v, d, next, k, p) {
      DescentStepAt(w, T, tables, tables', root, lm, value, value1, leaf, parent, depth, left, right,
                    left', right', s, v, d, level, node, child, n0, k, p);
    }
  }

  /** One descent step: register the child for `v`'s prefix at `level + 1` (the new leaf at
      the last level, a fresh node above it), make `node` its parent, point `node`'s slot on
      `v`'s side at it and fill the other slot with the new leaf when empty. */
  lemma DescentStep(w: nat, T: seq<Table>, s: set<int>, v: int, d: int, n0: int, lm: Table, root: int,
                    level: int, node: int, tables: seq<Table>, value: seq<Option<int>>, leaf: seq<bool>,
                    left: seq<Option<int>>, right: seq<Option<int>>, parent: seq<Option<int>>,
                    depth: seq<int>, lo: Option<int>, hi: Option<int>, child: int,
                    tables': seq<Table>, value1: seq<Option<int>>, leaf1: seq<bool>,
                    left1: seq<Option<int>>, right1: seq<Option<int>>, parent1: seq<Option<int>>,
                    depth1: seq<int>, left': seq<Option<int>>, right': seq<Option<int>>,
                    parent': seq<Option<int>>)
    requires DescentInv(w, T, s, v, d, n0, lm, root, level, node, tables, value, leaf, left, right,
                        parent, depth, lo, hi)
    requires ChildMade(w, v, level, n0, child, value, leaf, left, right, parent, depth,
                       value1, leaf1, left1, right1, parent1, depth1)
    requires ChildHung(w, v, level, node, child, n0, left1, right1, parent1, left', right', parent')
    requires tables' == tables[level + 1 := tables[level + 1][Prefix(w, v, level + 1) := child]]
    ensures DescentInv(w, T, s, v, d, n0, lm, root, level + 1, child, tables', value1, leaf1, left', right',
                       parent', depth1, lo, hi)
  {
    assert Prefix(w, v, level + 1) !in T[level + 1];
    GrowStep(w, T, tables, v, level, child);
    PrefixEnds(w, v);
    if level >= 0 {
      EntryOf(w, tables, root, value, leaf, parent, depth, level, Prefix(w, v, level));
    }
    assert !leaf[node];
    StepNodes(w, T, s, v, d, n0, root, level, node, tables, value, leaf, left, right, parent, depth, child,
              tables', value1, leaf1, left1, right1, parent1, depth1, left', right', parent');
    StepChain(w, v, level, node, child, n0, s + {v}, lm, value, leaf, left, right, parent, depth, lo, hi,
              value1, leaf1, left1, right1, parent1, depth1, left', right', parent');
    StepSlots(w, T, s, v, d, n0, lm, root, level, node, tables, value, leaf, left, right, parent, depth,
              child, tables', value1, left', right');
  }

  /** The state of the upward pass that stands at `cur`, the node for `v`'s prefix at `lvl`
      (None once past the root, at `lvl == -2`). */
  ghost predicate AscentInv(w: nat, s: set<int>, v: int, d: int, n0: int, root: int, lvl: int,
                            cur: Option<int>, tables: seq<Table>, value: seq<Option<int>>,
                            leaf: seq<bool>, left: seq<Option<int>>, right: seq<Option<int>>,
                            parent: seq<Option<int>>, depth: seq<int>, lo: Option<int>, hi: Option<int>)
  {
    w >= 1 && |tables| == w && -2 <= lvl <= w - 1 && -1 <= d < w - 1 &&
    0 <= v < Pow2(w) && v !in s && InRange(w, s + {v}) &&
    TablesExact(w, tables, s + {v}) && v in tables[w - 1] && tables[w - 1][v] == n0 &&
    ArenaOK(value, leaf, left, right, parent, depth) &&
    NodesOK(w, tables, root, value, leaf, parent, depth) &&
    ChainOK(tables[w - 1], value, left, right, s + {v}) && LeafFlags(tables[w - 1], leaf, s + {v}) &&
    EndsOK(tables[w - 1], value, lo, hi, s + {v}) &&
    (cur.Some? <==> lvl >= -1) &&
    (lvl >= -1 ==> cur == Some(NodeAt(tables, root, lvl, Prefix(w, v, lvl))) && 0 <= cur.value < |value|) &&
    AscentAll(w, tables, root, tables[w - 1], value, left, right, s, v, d, lvl)
  }

  /** At the end of the descent every prefix of `v` is registered, the last table is the
      old one plus `v`, and the upward pass can start at the new leaf. */
  lemma DescentEnd(w: nat, T: seq<Table>, s: set<int>, v: int, d: int, n0: int, lm: Table, root: int,
                   node: int, tables: seq<Table>, value: seq<Option<int>>, leaf: seq<bool>,
                   left: seq<Option<int>>, right: seq<Option<int>>, parent: seq<Option<int>>,
                   depth: seq<int>, lo: Option<int>, hi: Option<int>)
    ensures DescentInv(w, T, s, v, d, n0, lm, root, w - 1, node, tables, value, leaf, left, right,
                       parent, depth, lo, hi) ==>
              AscentInv(w, s, v, d, n0, root, w - 1, Some(node), tables, value, leaf, left, right,
                        parent, depth, lo, hi)
  {
    if DescentInv(w, T, s, v, d, n0, lm, root, w - 1, node, tables, value, leaf, left, right,
                  parent, depth, lo, hi) {
      PrefixEnds(w, v);
      assert tables[w - 1] == lm by {
        forall p ensures p in tables[w - 1] <==> p in lm {
        }
        forall p | p in lm ensures tables[w - 1][p] == lm[p] {
        }
      }
      assert TablesExact(w, tables, s + {v}) by {
        forall k, t | 0 <= k < w && t in s + {v} ensures Prefix(w, t, k) in tables[k] {
          if t != v {
            KeyOf(w, T, s, t, k);
          }
        }
        forall k, p | 0 <= k < w && p in tables[k] ensures exists t :: t in s + {v} && Prefix(w, t, k) == p {
          if p in T[k] {
            var t := WitnessOf(w, T, s, k, p);
            assert t in s + {v};
          } else {
            assert v in s + {v};
          }
        }
      }
      var last := w - 1;
      forall k, p ensures AscentAt(w, tables, root, lm, value, left, right, s, v, d, last, k, p) {
        assert DescentAt(w, tables, root, lm, value, left, right, s, v, d, last, k, p);
      }
    }
  }

  /** One repair carries AscentAt from `lvl` to `lvl - 1` at every node. */
  lemma RepairSlots(w: nat, s: set<int>, v: int, d: int, n0: int, root: int, lvl: int, nd: int,
                    tables: seq<Table>, value: seq<Option<int>>, leaf: seq<bool>, left: seq<Option<int>>,
                    right: seq<Option<int>>, parent: seq<Option<int>>, depth: seq<int>,
                    left': seq<Option<int>>, right': seq<Option<int>>)
    requires w >= 1 && -1 <= lvl < w && |tables| == w && v !in s && 0 <= v < Pow2(w)
    requires TablesExact(w, tables, s + {v}) && NodesOK(w, tables, root, value, leaf, parent, depth)
    requires v in tables[w - 1] && tables[w - 1][v] == n0
    requires nd == NodeAt(tables, root, lvl, Prefix(w, v, lvl)) && 0 <= nd < |leaf|
    requires leaf[nd] <==> lvl == w - 1
    requires |left| == |leaf| && |right| == |leaf|
    requires left' == if leaf[nd] then left else left[nd := RepairLeft(left[nd], leaf, value, v, n0)]
    requires right' == if leaf[nd] then right else right[nd := RepairRight(right[nd], leaf, value, v, n0)]
    requires AscentAll(w, tables, root, tables[w - 1], value, left, right, s, v, d, lvl)
    ensures AscentAll(w, tables, root, tables[w - 1], value, left', right', s, v, d, lvl - 1)
  {
    var lm := tables[w - 1];
    if lvl < w - 1 {
      assert AscentAt(w, tables, root, lm, value, left, right, s, v, d, lvl, lvl, Prefix(w, v, lvl));
    }
    var up := lvl - 1;
    forall k, p ensures AscentAt(w, tables, root, lm, value, left', right', s, v, d, up, k, p) {
      AscentStepAt(w, tables, root, value, leaf, parent, depth, left, right, s, v, d, lvl, nd, n0,
                   left', right', k, p);
    }
  }

  /** One step of the upward pass: repair the threads of `cur` (left alone when it is the
      leaf) and move to its parent. */
  lemma AscentStep(w: nat, s: set<int>, v: int, d: int, n0: int, root: int, lvl: int, nd: int,
                   tables: seq<Table>, value: seq<Option<int>>, leaf: seq<bool>, left: seq<Option<int>>,
                   right: seq<Option<int>>, parent: seq<Option<int>>, depth: seq<int>,
                   lo: Option<int>, hi: Option<int>, left': seq<Option<int>>, right': seq<Option<int>>)
    requires AscentInv(w, s, v, d, n0, root, lvl, Some(nd), tables, value, leaf, left, right,
                       parent, depth, lo, hi)
    requires left' == if leaf[nd] then left else left[nd := RepairLeft(left[nd], leaf, value, v, n0)]
    requires right' == if leaf[nd] then right else right[nd := RepairRight(right[nd], leaf, value, v, n0)]
    ensures AscentInv(w, s, v, d, n0, root, lvl - 1, parent[nd], tables, value, leaf, left', right',
                      parent, depth, lo, hi)
  {
    var lm := tables[w - 1];
    PrefixEnds(w, v);
    if lvl >= 0 {
      KeyOf(w, tables, s + {v}, v, lvl);
      EntryOf(w, tables, root, value, leaf, parent, depth, lvl, Prefix(w, v, lvl));
      PrefixParent(w, v, lvl);
    }
    assert leaf[nd] <==> lvl == w - 1;
    RepairSlots(w, s, v, d, n0, root, lvl, nd, tables, value, leaf, left, right, parent, depth, left', right');
    ChainCarry(lm, value, value, leaf, left, right, left', right', s + {v});
    assert ArenaOK(value, leaf, left', right', parent, depth);
  }

  /** Once the upward pass is past the root, every inner node obeys the thread rule for the
      new set of values. */
  lemma AscentEnd(w: nat, s: set<int>, v: int, d: int, n0: int, root: int, tables: seq<Table>,
                  value: seq<Option<int>>, leaf: seq<bool>, left: seq<Option<int>>,
                  right: seq<Option<int>>, parent: seq<Option<int>>, depth: seq<int>,
                  lo: Option<int>, hi: Option<int>)
    requires AscentInv(w, s, v, d, n0, root, -2, None, tables, value, leaf, left, right,
                       parent, depth, lo, hi)
    ensures ThreadsOK(w, tables, root, tables[w - 1], value, left, right, s + {v})
  {
    var lm, s' := tables[w - 1], s + {v};
    forall k, p ensures SlotsAt(w, tables, root, lm, value, left, right, s', k, p) {
      assert AscentAt(w, tables, root, lm, value, left, right, s, v, d, -2, k, p);
    }
  }

  /** The successor link of the predecessor `q` of an absent `v` is a successor link for `v`. */
  lemma NextOfPred(lm: Table, value: seq<Option<int>>, s: set<int>, v: int, q: int, o: Option<int>)
    requires v !in s && IsPred(s, v, q) && NextOK(lm, value, o, s, q)
    ensures NextOK(lm, value, o, s, v)
  {
    if NoneAbove(s, q) {
      assert NoneAbove(s, v);
    } else {
      PredThenSucc(s, v, q, Target(value, o));
    }
  }

  /** The predecessor link of the successor `n` of an absent `v` is a predecessor link for `v`. */
  lemma PrevOfSucc(lm: Table, value: seq<Option<int>>, s: set<int>, v: int, n: int, o: Option<int>)
    requires v !in s && IsSucc(s, v, n) && PrevOK(lm, value, o, s, n)
    ensures PrevOK(lm, value, o, s, v)
  {
    if NoneBelow(s, n) {
      assert NoneBelow(s, v);
    } else {
      SuccThenPred(s, v, n, Target(value, o));
    }
  }

  /** What an insert of a new value `v` leaves behind, against the tables `T`, the arena
      values `value` and the ends `lo`, `hi` before it: a trie holding `s + {v}` whose tables
      gained exactly `v`'s prefixes, whose arena only grew, whose leaf for `v` is the node
      appended first, and whose ends moved to that leaf when `v` is a new minimum or maximum. */
  ghost predicate Inserted(w: nat, root: int, T: seq<Table>, s: set<int>, v: int, value: seq<Option<int>>,
                           lo: Option<int>, hi: Option<int>, tables': seq<Table>, value': seq<Option<int>>,
                           leaf': seq<bool>, left': seq<Option<int>>, right': seq<Option<int>>,
                           parent': seq<Option<int>>, depth': seq<int>, lo': Option<int>, hi': Option<int>)
  {
    TrieOK(w, tables', root, value', leaf', left', right', parent', depth', lo', hi', s + {v}) &&
    TablesGrown(w, tables', T, v, w - 1) && Extends(value, value') &&
    v in tables'[w - 1] && tables'[w - 1][v] == |value| &&
    lo' == (if lo.None? || v < Target(value, lo) then Some(|value|) else lo) &&
    hi' == (if hi.None? || v > Target(value, hi) then Some(|value|) else hi)
  }

  /** The end of the upward pass, after a descent that grew `T` by `v`'s prefixes, is the
      state Inserted describes. */
  lemma InsertEnd(w: nat, root: int, T: seq<Table>, s: set<int>, v: int, d: int, value: seq<Option<int>>,
                  lo: Option<int>, hi: Option<int>, tables': seq<Table>, value': seq<Option<int>>,
                  leaf': seq<bool>, left': seq<Option<int>>, right': seq<Option<int>>,
                  parent': seq<Option<int>>, depth': seq<int>, lo': Option<int>, hi': Option<int>)
    requires AscentInv(w, s, v, d, |value|, root, -2, None, tables', value', leaf', left', right',
                       parent', depth', lo', hi')
    requires TablesGrown(w, tables', T, v, w - 1) && Extends(value, value')
    requires lo' == (if lo.None? || v < Target(value, lo) then Some(|value|) else lo)
    requires hi' == (if hi.None? || v > Target(value, hi) then Some(|value|) else hi)
    ensures Inserted(w, root, T, s, v, value, lo, hi, tables', value', leaf', left', right', parent',
                     depth', lo', hi')
  {
    AscentEnd(w, s, v, d, |value|, root, tables', value', leaf', left', right', parent', depth', lo', hi');
  }
}
