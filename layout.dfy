/** The shape an X-fast trie must have, stated over the plain values that make
    up its state: the level tables and the node arena.

    The arena stores node `i`'s `TrieNode` slots in `value[i]`, `leaf[i]`,
    `left[i]`, `right[i]` and `parent[i]`; `depth[i]` is the ghost level of the
    node (-1 for the root). `tables[k]` maps the (k+1)-bit prefix of a stored
    value to the node for that prefix; `tables[w - 1]` maps each stored value to
    its leaf. */
module Layout {
  import opened Wrappers
  import opened Bits
  import opened Order

  type Table = map<int, int>

  ghost predicate InRange(w: nat, s: set<int>)
  {
    forall t :: t in s ==> 0 <= t < Pow2(w)
  }

  /** `m` is the smallest value of `s` whose prefix at level `k` is `p`. */
  ghost predicate IsMinUnder(w: nat, s: set<int>, k: int, p: int, m: int)
    requires -1 <= k < w
  {
    m in s && Prefix(w, m, k) == p &&
    forall t :: t in s && Prefix(w, t, k) == p ==> m <= t
  }

  /** `m` is the largest value of `s` whose prefix at level `k` is `p`. */
  ghost predicate IsMaxUnder(w: nat, s: set<int>, k: int, p: int, m: int)
    requires -1 <= k < w
  {
    m in s && Prefix(w, m, k) == p &&
    forall t :: t in s && Prefix(w, t, k) == p ==> t <= m
  }

  /** Level `k` holds exactly the prefixes of the stored values, at every level. */
  ghost predicate TablesExact(w: nat, tables: seq<Table>, s: set<int>)
  {
    |tables| == w &&
    (forall k, t {:trigger Prefix(w, t, k)} :: 0 <= k < w && t in s ==> Prefix(w, t, k) in tables[k]) &&
    (forall k, p :: 0 <= k < w && p in tables[k] ==> exists t :: t in s && Prefix(w, t, k) == p)
  }

  /** Wherever `v`'s prefix is present, its prefixes at all shallower levels are present too. */
  ghost predicate ClosedAlong(w: nat, tables: seq<Table>, v: int)
  {
    |tables| == w &&
    forall j, k {:trigger Prefix(w, v, j), Prefix(w, v, k)} :: 0 <= j <= k < w && Prefix(w, v, k) in tables[k] ==> Prefix(w, v, j) in tables[j]
  }

  /** `t` agrees with `v` on a longer prefix than `c` does. */
  ghost predicate SharesLongerPrefix(w: nat, t: int, c: int, v: int)
  {
    exists k :: 0 <= k < w && Prefix(w, t, k) == Prefix(w, v, k) && Prefix(w, c, k) != Prefix(w, v, k)
  }

  /** Any other element of `s` as close to `v` as `r` shares a longer prefix with `v`. */
  ghost predicate TiesToShorterPrefix(w: nat, s: set<int>, v: int, r: int)
  {
    forall t :: t in s && t != r && Dist(t, v) == Dist(r, v) ==> SharesLongerPrefix(w, t, r, v)
  }

  /** The node for prefix `p` at level `k`; level -1 is the root. */
  function NodeAt(tables: seq<Table>, root: int, k: int, p: int): int
  {
    if k == -1 then root
    else if 0 <= k < |tables| && p in tables[k] then tables[k][p]
    else -1
  }

  predicate HasNode(tables: seq<Table>, k: int, p: int)
  {
    (k == -1 && p == 0) || (0 <= k < |tables| && p in tables[k])
  }

  /** Every slot of every node refers to a node of the arena, and leaves carry a value. */
  ghost predicate ArenaOK(value: seq<Option<int>>, leaf: seq<bool>, left: seq<Option<int>>,
                          right: seq<Option<int>>, parent: seq<Option<int>>, depth: seq<int>)
  {
    |leaf| == |value| && |left| == |value| && |right| == |value| &&
    |parent| == |value| && |depth| == |value| &&
    (forall i :: 0 <= i < |value| && left[i].Some? ==> 0 <= left[i].value < |value|) &&
    (forall i :: 0 <= i < |value| && right[i].Some? ==> 0 <= right[i].value < |value|) &&
    (forall i :: 0 <= i < |value| && parent[i].Some? ==> 0 <= parent[i].value < |value|) &&
    (forall i :: 0 <= i < |value| && leaf[i] ==> value[i].Some?)
  }

  /** The node registered for prefix `p` at level `k` has that prefix as its value, is a
      leaf exactly at the last level, and hangs under the node one level up. */
  ghost predicate EntryOK(w: nat, tables: seq<Table>, root: int, value: seq<Option<int>>,
                          leaf: seq<bool>, parent: seq<Option<int>>, depth: seq<int>, k: int, p: int)
    requires 0 <= k < |tables| && p in tables[k]
  {
    var id := tables[k][p];
    0 <= id < |value| && id < |leaf| && id < |parent| && id < |depth| &&
    depth[id] == k && value[id] == Some(p) && leaf[id] == (k == w - 1) &&
    parent[id] == Some(NodeAt(tables, root, k - 1, p / 2))
  }

  ghost predicate NodesOK(w: nat, tables: seq<Table>, root: int, value: seq<Option<int>>,
                          leaf: seq<bool>, parent: seq<Option<int>>, depth: seq<int>)
  {
    |tables| == w && 0 <= root < |value| && root < |leaf| && root < |parent| && root < |depth| &&
    value[root] == None && !leaf[root] && parent[root] == None && depth[root] == -1 &&
    forall k, p :: EntryAt(w, tables, root, value, leaf, parent, depth, k, p)
  }

  /** EntryOK for a key of the tables (quantified over by NodesOK). */
  ghost predicate EntryAt(w: nat, tables: seq<Table>, root: int, value: seq<Option<int>>,
                          leaf: seq<bool>, parent: seq<Option<int>>, depth: seq<int>, k: int, p: int)
  {
    0 <= k < w && k < |tables| && p in tables[k] ==> EntryOK(w, tables, root, value, leaf, parent, depth, k, p)
  }

  /** `o` refers to the leaf that `lm` (the last level table) registers for the value it holds. */
  ghost predicate LeafLink(lm: Table, value: seq<Option<int>>, o: Option<int>)
  {
    o.Some? && 0 <= o.value < |value| && value[o.value].Some? &&
    value[o.value].value in lm && lm[value[o.value].value] == o.value
  }

  /** The value held by the node `o` refers to. */
  function Target(value: seq<Option<int>>, o: Option<int>): int
  {
    if o.Some? && 0 <= o.value < |value| && value[o.value].Some? then value[o.value].value else -1
  }

  /** A leaf's `left` link: its predecessor's leaf, or None at the low end. */
  ghost predicate PrevOK(lm: Table, value: seq<Option<int>>, o: Option<int>, s: set<int>, x: int)
  {
    if NoneBelow(s, x) then o == None else LeafLink(lm, value, o) && IsPred(s, x, Target(value, o))
  }

  /** A leaf's `right` link: its successor's leaf, or None at the high end. */
  ghost predicate NextOK(lm: Table, value: seq<Option<int>>, o: Option<int>, s: set<int>, x: int)
  {
    if NoneAbove(s, x) then o == None else LeafLink(lm, value, o) && IsSucc(s, x, Target(value, o))
  }

  /** The leaves form a doubly linked chain in ascending order of value. */
  ghost predicate ChainOK(lm: Table, value: seq<Option<int>>, left: seq<Option<int>>,
                          right: seq<Option<int>>, s: set<int>)
  {
    forall x :: LinkedAt(lm, value, left, right, s, x)
  }

  /** The chain links of the leaf for `x`, when `x` is stored (quantified over by ChainOK). */
  ghost predicate LinkedAt(lm: Table, value: seq<Option<int>>, left: seq<Option<int>>,
                           right: seq<Option<int>>, s: set<int>, x: int)
  {
    x in s ==>
      x in lm && 0 <= lm[x] < |left| && lm[x] < |right| &&
      PrevOK(lm, value, left[lm[x]], s, x) && NextOK(lm, value, right[lm[x]], s, x)
  }

  /** `_min` and `_max` are the leaves at the two ends of the chain. */
  ghost predicate EndsOK(lm: Table, value: seq<Option<int>>, lo: Option<int>, hi: Option<int>, s: set<int>)
  {
    (s == {} ==> lo == None && hi == None) &&
    (s != {} ==>
      LeafLink(lm, value, lo) && IsLeast(s, Target(value, lo)) &&
      LeafLink(lm, value, hi) && IsGreatest(s, Target(value, hi)))
  }

  /** The `left` slot of the node for prefix `p` at level `k`: its real left child, else a
      thread to the smallest leaf of its right subtree, else (an empty trie's root) None. */
  ghost predicate LeftSlotOK(w: nat, next: Table, lm: Table, value: seq<Option<int>>,
                             slot: Option<int>, s: set<int>, k: int, p: int)
    requires -1 <= k < w - 1
  {
    if 2 * p in next then slot == Some(next[2 * p])
    else if 2 * p + 1 in next then
      LeafLink(lm, value, slot) && IsMinUnder(w, s, k + 1, 2 * p + 1, Target(value, slot))
    else slot == None
  }

  /** The `right` slot: its real right child, else a thread to the largest leaf of its left
      subtree, else None. */
  ghost predicate RightSlotOK(w: nat, next: Table, lm: Table, value: seq<Option<int>>,
                              slot: Option<int>, s: set<int>, k: int, p: int)
    requires -1 <= k < w - 1
  {
    if 2 * p + 1 in next then slot == Some(next[2 * p + 1])
    else if 2 * p in next then
      LeafLink(lm, value, slot) && IsMaxUnder(w, s, k + 1, 2 * p, Target(value, slot))
    else slot == None
  }

  ghost predicate SlotsOK(w: nat, tables: seq<Table>, root: int, lm: Table, value: seq<Option<int>>,
                          left: seq<Option<int>>, right: seq<Option<int>>, s: set<int>, k: int, p: int)
    requires -1 <= k < w - 1 && |tables| == w
  {
    var id := NodeAt(tables, root, k, p);
    0 <= id < |left| && id < |right| &&
    LeftSlotOK(w, tables[k + 1], lm, value, left[id], s, k, p) &&
    RightSlotOK(w, tables[k + 1], lm, value, right[id], s, k, p)
  }

  /** Every internal node (the root included) obeys the descendant-thread rule. */
  ghost predicate ThreadsOK(w: nat, tables: seq<Table>, root: int, lm: Table, value: seq<Option<int>>,
                            left: seq<Option<int>>, right: seq<Option<int>>, s: set<int>)
  {
    |tables| == w &&
    forall k, p :: SlotsAt(w, tables, root, lm, value, left, right, s, k, p)
  }

  /** SlotsOK for every internal node (quantified over by ThreadsOK). */
  ghost predicate SlotsAt(w: nat, tables: seq<Table>, root: int, lm: Table, value: seq<Option<int>>,
                          left: seq<Option<int>>, right: seq<Option<int>>, s: set<int>, k: int, p: int)
  {
    -1 <= k < w - 1 && |tables| == w && HasNode(tables, k, p) ==>
      SlotsOK(w, tables, root, lm, value, left, right, s, k, p)
  }

  /** Every invariant of an X-fast trie holding the values `s`, with `lo` and `hi` its ends. */
  ghost predicate TrieOK(w: nat, tables: seq<Table>, root: int, value: seq<Option<int>>, leaf: seq<bool>,
                         left: seq<Option<int>>, right: seq<Option<int>>, parent: seq<Option<int>>,
                         depth: seq<int>, lo: Option<int>, hi: Option<int>, s: set<int>)
  {
    w >= 1 && ArenaOK(value, leaf, left, right, parent, depth) &&
    InRange(w, s) &&
    TablesExact(w, tables, s) &&
    NodesOK(w, tables, root, value, leaf, parent, depth) &&
    ChainOK(tables[w - 1], value, left, right, s) &&
    ThreadsOK(w, tables, root, tables[w - 1], value, left, right, s) &&
    EndsOK(tables[w - 1], value, lo, hi, s)
  }
}
