/** The X-fast trie object: `XFastTrie` with its `TrieNode`s kept in an arena.

    Node `i` of the arena has the slots of a `TrieNode`: `value[i]` (a prefix, the stored
    value for a leaf, None for the root), `leaf[i]`, `left[i]`, `right[i]` and `parent[i]`,
    where a node reference is the node's index. Node 0 is the root. `levelTables[k]`
    maps each (k+1)-bit prefix to its node. The ghost `Contents` is the set of stored values
    and the ghost `depth[i]` is the level of node `i`. */
module XFast {
  import opened Wrappers
  import opened Bits
  import opened Order
  import opened Input
  import opened Layout
  import opened Shape
  import opened Grow
  import opened Phases
  import opened Removal

  /** `_make_tables`: one empty table per level. */
  function MakeTables(levels: nat): (r: seq<Table>)
    ensures |r| == levels && forall k :: 0 <= k < levels ==> r[k] == map[]
  {
    seq(levels, _ => map[])
  }

  /** The end of `_closest_leaf` once the thread of `v`'s deepest ancestor, at level `d`,
      has led to the leaf `child`: that leaf holds `v`'s successor when `bit` is 0 and its
      predecessor when `bit` is 1, and its chain link on the far side holds the other
      neighbour (if any). The nearer of the two is returned, a tie going to the far one. */
  method NearerLeaf(ghost w: nat, ghost lm: Table, value: seq<Option<int>>, left: seq<Option<int>>,
                    right: seq<Option<int>>, ghost s: set<int>, v: int, ghost d: int, bit: int,
                    child: Option<int>)
    returns (r: Option<int>)
    requires w >= 1 && 0 <= v < Pow2(w) && InRange(w, s) && -1 <= d < w
    requires ChainOK(lm, value, left, right, s) && LeafLink(lm, value, child)
    requires bit == 0 ==>
               IsSucc(s, v, Target(value, child)) && Prefix(w, Target(value, child), d) == Prefix(w, v, d) &&
               forall t :: t in s && Prefix(w, t, d) == Prefix(w, v, d) ==> v < t
    requires bit != 0 ==>
               IsPred(s, v, Target(value, child)) && Prefix(w, Target(value, child), d) == Prefix(w, v, d) &&
               forall t :: t in s && Prefix(w, t, d) == Prefix(w, v, d) ==> t < v
    ensures LeafLink(lm, value, r)
    ensures IsPred(s, v, Target(value, r)) || IsSucc(s, v, Target(value, r))
    ensures IsNearest(s, v, Target(value, r)) && TiesToShorterPrefix(w, s, v, Target(value, r))
  {
    var c := child.value;
    ghost var x := Target(value, child);
    LinkOf(lm, value, left, right, s, x);
    var other := if bit == 0 then left[c] else right[c];
    if other.None? {
      if bit == 0 {
        OnlyAbove(w, s, v, x);
      } else {
        OnlyBelow(w, s, v, x);
      }
      return child;
    }
    var o := other.value;
    ghost var y := Target(value, other);
    ghost var pick := if Dist(x, v) < Dist(y, v) then x else y;
    if bit == 0 {
      SuccThenPred(s, v, x, y);
      ChooseAbove(w, s, v, d, x, y, pick);
    } else {
      PredThenSucc(s, v, x, y);
      ChooseBelow(w, s, v, d, x, y, pick);
    }
    r := if Dist(value[c].value, v) < Dist(value[o].value, v) then child else other;
  }

  class XFastTrie {
    const maxLen: nat
    const root: int
    var levelTables: seq<Table>
    var count: int
    var minLeaf: Option<int>
    var maxLeaf: Option<int>

    var value: seq<Option<int>>
    var leaf: seq<bool>
    var left: seq<Option<int>>
    var right: seq<Option<int>>
    var parent: seq<Option<int>>
    ghost var depth: seq<int>

    ghost var Contents: set<int>

    ghost predicate Valid()
      reads this
    {
      maxLen >= 1 && root == 0 &&
      TrieOK(maxLen, levelTables, root, value, leaf, left, right, parent, depth, minLeaf, maxLeaf, Contents) &&
      count == |Contents|
    }

    constructor (maxLength: nat)
      requires maxLength >= 1
      ensures Valid() && maxLen == maxLength && Contents == {}
    {
      maxLen := maxLength;
      root := 0;
      levelTables := MakeTables(maxLength);
      count := 0;
      minLeaf, maxLeaf := None, None;
      value, leaf, left, right, parent := [None], [false], [None], [None], [None];
      depth := [-1];
      Contents := {};
    }

    /** `_closest_ancestor`: binary search over the levels for the deepest one holding
        `v`'s prefix. */
    method ClosestAncestor(v: int) returns (node: int, levelFound: int)
      requires maxLen >= 1 && |levelTables| == maxLen
      ensures -1 <= levelFound < maxLen
      ensures levelFound == -1 ==> node == root
      ensures levelFound >= 0 ==>
                Prefix(maxLen, v, levelFound) in levelTables[levelFound] &&
                node == levelTables[levelFound][Prefix(maxLen, v, levelFound)]
      ensures ClosedAlong(maxLen, levelTables, v) ==>
                forall k :: levelFound < k < maxLen ==> Prefix(maxLen, v, k) !in levelTables[k]
    {
      node := root;
      levelFound := -1;
      var lo, hi := 0, maxLen - 1;
      while lo <= hi
        invariant 0 <= lo <= hi + 1 <= maxLen
        invariant levelFound == lo - 1
        invariant levelFound == -1 ==> node == root
        invariant levelFound >= 0 ==>
                    Prefix(maxLen, v, levelFound) in levelTables[levelFound] &&
                    node == levelTables[levelFound][Prefix(maxLen, v, levelFound)]
        invariant ClosedAlong(maxLen, levelTables, v) ==>
                    forall k :: hi < k < maxLen ==> Prefix(maxLen, v, k) !in levelTables[k]
      {
        var mid := (lo + hi) / 2;
        var prefix := Prefix(maxLen, v, mid);
        if prefix in levelTables[mid] {
          node := levelTables[mid][prefix];
          levelFound := mid;
          lo := mid + 1;
        } else {
          hi := mid - 1;
        }
      }
    }

    /** `_closest_leaf`: the leaf of `v` itself, else the leaf of `v`'s predecessor or
        successor, whichever is nearer, ties going to the one sharing the shorter prefix
        with `v`; None only when the trie is empty. */
    method ClosestLeaf(v: int) returns (r: Option<int>)
      requires Valid() && 0 <= v < Pow2(maxLen)
      ensures r.None? <==> Contents == {}
      ensures r.Some? ==> LeafLink(levelTables[maxLen - 1], value, r)
      ensures v in Contents ==> v in levelTables[maxLen - 1] && r == Some(levelTables[maxLen - 1][v])
      ensures r.Some? && v !in Contents ==>
                IsPred(Contents, v, Target(value, r)) || IsSucc(Contents, v, Target(value, r))
      ensures r.Some? ==> IsNearest(Contents, v, Target(value, r))
      ensures r.Some? ==> TiesToShorterPrefix(maxLen, Contents, v, Target(value, r))
    {
      ghost var s := Contents;
      ghost var lm := levelTables[maxLen - 1];
      PrefixEnds(maxLen, v);
      ClosedAlongAll(maxLen, levelTables, s, v);
      var ancestor, level := ClosestAncestor(v);
      AncestorLeaf(maxLen, levelTables, root, value, leaf, parent, depth, s, v, level, ancestor);
      if leaf[ancestor] {
        return Some(ancestor);
      }
      var bit := Prefix(maxLen, v, level + 1) % 2;
      if s == {} {
        EmptyRoot(maxLen, levelTables, root, lm, value, left, right);
      } else {
        ThreadNeighbour(maxLen, levelTables, root, value, leaf, parent, depth, left, right, s, v, level);
        AncestorSide(maxLen, levelTables, s, v, level);
      }
      var child := if bit == 0 then left[ancestor] else right[ancestor];
      if child.None? {
        return None;
      }
      r := NearerLeaf(maxLen, lm, value, left, right, s, v, level, bit, child);
    }
  
    /** The neighbours `insert` links a new leaf for the absent `v` between: the leaf of
        `v`'s predecessor (None when nothing is stored below `v`) and of its successor (None
        when nothing is stored above), found from the closest leaf and its chain link. */
    method Neighbours(v: int) returns (pred: Option<int>, succ: Option<int>)
      requires Valid() && 0 <= v < Pow2(maxLen) && v !in Contents
      ensures PrevOK(levelTables[maxLen - 1], value, pred, Contents, v)
      ensures NextOK(levelTables[maxLen - 1], value, succ, Contents, v)
    {
      ghost var s, lm := Contents, levelTables[maxLen - 1];
      pred, succ := None, None;
      if count != 0 {
        var neighbor := ClosestLeaf(v);
        var nb := neighbor.value;
        ghost var y := Target(value, neighbor);
        LinkOf(lm, value, left, right, s, y);
        if value[nb].value < v {
          pred, succ := neighbor, right[nb];
          assert IsPred(s, v, y);
          NextOfPred(lm, value, s, v, y, succ);
        } else {
          succ, pred := neighbor, left[nb];
          assert IsSucc(s, v, y);
          PrevOfSucc(lm, value, s, v, y, pred);
        }
      }
    }

    /** Appends the leaf for `v` between `pred` and `succ`, links it into the chain and makes
        it the minimum or the maximum when `v` is one; the arena and the ends after these
        updates are returned. */
    method AddLeaf(v: int, pred: Option<int>, succ: Option<int>)
      returns (leafNode: int, values: seq<Option<int>>, leaves: seq<bool>, lefts: seq<Option<int>>,
               rights: seq<Option<int>>, parents: seq<Option<int>>, ghost depths: seq<int>,
               lo: Option<int>, hi: Option<int>)
      requires maxLen >= 1 && |levelTables| == maxLen && ArenaOK(value, leaf, left, right, parent, depth)
      requires EndsOK(levelTables[maxLen - 1], value, minLeaf, maxLeaf, Contents)
      requires pred.Some? ==> 0 <= pred.value < |value|
      requires succ.Some? ==> 0 <= succ.value < |value|
      ensures LeafAdded(v, maxLen, pred, succ, leafNode, value, leaf, left, right, parent, depth, minLeaf, maxLeaf,
                        values, leaves, lefts, rights, parents, depths, lo, hi)
    {
      leafNode := |value|;
      values := value + [Some(v)];
      leaves := leaf + [true];
      lefts := left + [pred];
      rights := right + [succ];
      parents := parent + [None];
      depths := depth + [maxLen - 1];
      if pred.Some? {
        rights := rights[pred.value := Some(leafNode)];
      }
      if succ.Some? {
        lefts := lefts[succ.value := Some(leafNode)];
      }
      lo, hi := minLeaf, maxLeaf;
      // the ends are old leaves, so appending nodes leaves their values alone
      assert lo.Some? ==> 0 <= lo.value < |value| && values[lo.value] == value[lo.value] &&
                          values[lo.value].Some? && values[lo.value].value == Target(value, lo);
      assert hi.Some? ==> 0 <= hi.value < |value| && values[hi.value] == value[hi.value] &&
                          values[hi.value].Some? && values[hi.value].value == Target(value, hi);
      if lo.None? || v < values[lo.value].value {
        lo := Some(leafNode);
      }
      if hi.None? || v > values[hi.value].value {
        hi := Some(leafNode);
      }
    }

    /** The descent of `insert`: registers `v`'s prefixes below its deepest ancestor `node`
        (at level `d`), each for a fresh inner node and the last for the new leaf, hanging
        each under the one above and filling the empty slot beside it with the new leaf. */
    method Descend(ghost T: seq<Table>, ghost s: set<int>, v: int, d: int, leafNode: int, ghost lm: Table,
                   node: int, tables0: seq<Table>, values0: seq<Option<int>>, leaves0: seq<bool>,
                   lefts0: seq<Option<int>>, rights0: seq<Option<int>>, parents0: seq<Option<int>>,
                   ghost depths0: seq<int>, ghost lo: Option<int>, ghost hi: Option<int>)
      returns (last: int, tables: seq<Table>, values: seq<Option<int>>, leaves: seq<bool>,
               lefts: seq<Option<int>>, rights: seq<Option<int>>, parents: seq<Option<int>>,
               ghost depths: seq<int>)
      requires DescentInv(maxLen, T, s, v, d, leafNode, lm, root, d, node, tables0,
                          values0, leaves0, lefts0, rights0, parents0, depths0, lo, hi)
      ensures DescentInv(maxLen, T, s, v, d, leafNode, lm, root, maxLen - 1, last, tables,
                         values, leaves, lefts, rights, parents, depths, lo, hi)
      ensures Extends(values0, values)
    {
      tables, values, leaves, lefts, rights, parents, depths :=
        tables0, values0, leaves0, lefts0, rights0, parents0, depths0;
      last := node;
      var level := d;
      while level < maxLen - 1
        invariant DescentInv(maxLen, T, s, v, d, leafNode, lm, root, level, last, tables,
                             values, leaves, lefts, rights, parents, depths, lo, hi)
        invariant Extends(values0, values)
        decreases maxLen - level
      {
        var prefix := Prefix(maxLen, v, level + 1);
        ghost var tables1, values1, leaves1, lefts1, rights1, parents1, depths1 :=
          tables, values, leaves, lefts, rights, parents, depths;
        var child: int;
        if level == maxLen - 2 {
          child := leafNode;
        } else {
          child := |values|;
          values := values + [Some(prefix)];
          leaves := leaves + [false];
          lefts := lefts + [None];
          rights := rights + [None];
          parents := parents + [None];
          depths := depths + [level + 1];
        }
        ghost var lefts2, rights2, parents2 := lefts, rights, parents;
        parents := parents[child := Some(last)];
        if prefix % 2 == 0 {
          lefts := lefts[last := Some(child)];
          rights := rights[last := if rights[last].Some? then rights[last] else Some(leafNode)];
        } else {
          rights := rights[last := Some(child)];
          lefts := lefts[last := if lefts[last].Some? then lefts[last] else Some(leafNode)];
        }
        tables := tables[level + 1 := tables[level + 1][prefix := child]];
        DescentStep(maxLen, T, s, v, d, leafNode, lm, root, level, last, tables1, values1, leaves1, lefts1,
                    rights1, parents1, depths1, lo, hi, child, tables, values, leaves, lefts2,
                    rights2, parents2, depths, lefts, rights, parents);
        last := child;
        level := level + 1;
      }
    }

    /** The upward pass of `insert`: from the new leaf up to the root, every inner node whose
        left slot holds a leaf above `v`, or whose right slot holds a leaf below `v`, has that
        slot pointed at the new leaf. */
    method RepairThreads(ghost T: seq<Table>, ghost s: set<int>, v: int, ghost d: int, leafNode: int, node: int,
                         tables: seq<Table>, values: seq<Option<int>>, leaves: seq<bool>,
                         lefts0: seq<Option<int>>, rights0: seq<Option<int>>, parents: seq<Option<int>>,
                         ghost depths: seq<int>, ghost value0: seq<Option<int>>, ghost lo0: Option<int>,
                         ghost hi0: Option<int>, ghost lo: Option<int>, ghost hi: Option<int>)
      returns (lefts: seq<Option<int>>, rights: seq<Option<int>>)
      requires AscentInv(maxLen, s, v, d, leafNode, root, maxLen - 1, Some(node), tables, values,
                         leaves, lefts0, rights0, parents, depths, lo, hi)
      requires TablesGrown(maxLen, tables, T, v, maxLen - 1) && Extends(value0, values) && leafNode == |value0|
      requires lo == (if lo0.None? || v < Target(value0, lo0) then Some(leafNode) else lo0)
      requires hi == (if hi0.None? || v > Target(value0, hi0) then Some(leafNode) else hi0)
      ensures Inserted(maxLen, root, T, s, v, value0, lo0, hi0, tables, values, leaves, lefts, rights,
                       parents, depths, lo, hi)
    {
      lefts, rights := lefts0, rights0;
      var cur: Option<int> := Some(node);
      ghost var lvl := maxLen - 1;
      while cur.Some?
        invariant AscentInv(maxLen, s, v, d, leafNode, root, lvl, cur, tables, values, leaves, lefts, rights,
                            parents, depths, lo, hi)
        decreases lvl + 2
      {
        var nd := cur.value;
        ghost var lefts1, rights1 := lefts, rights;
        if !leaves[nd] {
          if lefts[nd].Some? && leaves[lefts[nd].value] && values[lefts[nd].value].value > v {
            lefts := lefts[nd := Some(leafNode)];
          }
          if rights[nd].Some? && leaves[rights[nd].value] && values[rights[nd].value].value < v {
            rights := rights[nd := Some(leafNode)];
          }
        }
        AscentStep(maxLen, s, v, d, leafNode, root, lvl, nd, tables, values, leaves, lefts1, rights1,
                   parents, depths, lo, hi, lefts, rights);
        cur := parents[nd];
        lvl := lvl - 1;
      }
      InsertEnd(maxLen, root, T, s, v, d, value0, lo0, hi0, tables, values, leaves, lefts,
                rights, parents, depths, lo, hi);
    }

    /** The steps of `insert` for a value `v` not yet stored, computed on the arena: the leaf
        appended and linked, the descent and the upward pass. */
    method InsertNew(v: int)
      returns (tables: seq<Table>, values: seq<Option<int>>, leaves: seq<bool>, lefts: seq<Option<int>>,
               rights: seq<Option<int>>, parents: seq<Option<int>>, ghost depths: seq<int>,
               lo: Option<int>, hi: Option<int>)
      requires Valid() && 0 <= v < Pow2(maxLen) && v !in Contents
      ensures Inserted(maxLen, root, levelTables, Contents, v, value, minLeaf, maxLeaf, tables, values,
                       leaves, lefts, rights, parents, depths, lo, hi)
    {
      ghost var s := Contents;
      var pred, succ := Neighbours(v);
      var leafNode;
      leafNode, values, leaves, lefts, rights, parents, depths, lo, hi := AddLeaf(v, pred, succ);
      ClosedAlongAll(maxLen, levelTables, s, v);
      var node, d := ClosestAncestor(v);
      DescentBegin(maxLen, levelTables, s, v, root, value, leaf, left, right, parent, depth, minLeaf, maxLeaf,
                   pred, succ, leafNode, values, leaves, lefts, rights, parents, depths, lo, hi, d, node);
      tables, values, leaves, lefts, rights, parents, depths :=
        InsertPath(levelTables, s, v, d, leafNode, node, values, leaves, lefts, rights, parents, depths,
                   value, minLeaf, maxLeaf, lo, hi);
    }

    /** The descent and the upward pass of `insert`, from `v`'s deepest ancestor `node` at
        level `d`, once the leaf `leafNode` for `v` is linked into the arena. `T`, `s`, `value0`
        and `lo0`, `hi0` are the tables, the values, the arena values and the ends before the
        insert. */
    method InsertPath(T: seq<Table>, ghost s: set<int>, v: int, d: int, leafNode: int, node: int,
                      values0: seq<Option<int>>, leaves0: seq<bool>, lefts0: seq<Option<int>>,
                      rights0: seq<Option<int>>, parents0: seq<Option<int>>, ghost depths0: seq<int>,
                      ghost value0: seq<Option<int>>, ghost lo0: Option<int>, ghost hi0: Option<int>,
                      ghost lo: Option<int>, ghost hi: Option<int>)
      returns (tables: seq<Table>, values: seq<Option<int>>, leaves: seq<bool>, lefts: seq<Option<int>>,
               rights: seq<Option<int>>, parents: seq<Option<int>>, ghost depths: seq<int>)
      requires |T| == maxLen >= 1
      requires DescentInv(maxLen, T, s, v, d, leafNode, T[maxLen - 1][v := leafNode], root, d, node, T,
                          values0, leaves0, lefts0, rights0, parents0, depths0, lo, hi)
      requires Extends(value0, values0) && leafNode == |value0|
      requires lo == (if lo0.None? || v < Target(value0, lo0) then Some(leafNode) else lo0)
      requires hi == (if hi0.None? || v > Target(value0, hi0) then Some(leafNode) else hi0)
      ensures Inserted(maxLen, root, T, s, v, value0, lo0, hi0, tables, values, leaves, lefts, rights,
                       parents, depths, lo, hi)
    {
      var last;
      last, tables, values, leaves, lefts, rights, parents, depths :=
        Descent(T, s, v, d, leafNode, node, values0, leaves0, lefts0, rights0, parents0, depths0, value0, lo, hi);
      lefts, rights := RepairThreads(T, s, v, d, leafNode, last, tables, values, leaves, lefts, rights, parents,
                                     depths, value0, lo0, hi0, lo, hi);
    }

    /** The descent of `insert` followed by the start of the upward pass at the new leaf. */
    method Descent(T: seq<Table>, ghost s: set<int>, v: int, d: int, leafNode: int, node: int,
                   values0: seq<Option<int>>, leaves0: seq<bool>, lefts0: seq<Option<int>>,
                   rights0: seq<Option<int>>, parents0: seq<Option<int>>, ghost depths0: seq<int>,
                   ghost value0: seq<Option<int>>, ghost lo: Option<int>, ghost hi: Option<int>)
      returns (last: int, tables: seq<Table>, values: seq<Option<int>>, leaves: seq<bool>,
               lefts: seq<Option<int>>, rights: seq<Option<int>>, parents: seq<Option<int>>,
               ghost depths: seq<int>)
      requires |T| == maxLen >= 1
      requires DescentInv(maxLen, T, s, v, d, leafNode, T[maxLen - 1][v := leafNode], root, d, node, T,
                          values0, leaves0, lefts0, rights0, parents0, depths0, lo, hi)
      requires Extends(value0, values0)
      ensures AscentInv(maxLen, s, v, d, leafNode, root, maxLen - 1, Some(last), tables, values,
                        leaves, lefts, rights, parents, depths, lo, hi)
      ensures TablesGrown(maxLen, tables, T, v, maxLen - 1) && Extends(value0, values)
    {
      ghost var lm := T[maxLen - 1][v := leafNode];
      last, tables, values, leaves, lefts, rights, parents, depths :=
        Descend(T, s, v, d, leafNode, lm, node, T, values0, leaves0, lefts0, rights0, parents0, depths0, lo, hi);
      DescentEnd(maxLen, T, s, v, d, leafNode, lm, root, last, tables, values, leaves, lefts, rights, parents,
                 depths, lo, hi);
    }

    /** Writes the arena and the tables computed for an insert of `v` back into the trie. */
    method CommitInsert(ghost v: int, tables: seq<Table>, values: seq<Option<int>>, leaves: seq<bool>,
                 lefts: seq<Option<int>>, rights: seq<Option<int>>, parents: seq<Option<int>>,
                 ghost depths: seq<int>, lo: Option<int>, hi: Option<int>)
      modifies this
      ensures levelTables == tables && value == values && leaf == leaves && left == lefts && right == rights
      ensures parent == parents && depth == depths && minLeaf == lo && maxLeaf == hi
      ensures Contents == old(Contents) + {v} && count == old(count) + 1
    {
      ghost var s := Contents;
      levelTables, value, leaf, left, right, parent, minLeaf, maxLeaf, count :=
        tables, values, leaves, lefts, rights, parents, lo, hi, count + 1;
      depth, Contents := depths, s + {v};
    }

    /** `insert`: store the normalised value. A value already stored is left alone; a new one
        gets a leaf linked between its predecessor and successor, becomes the minimum or
        maximum when it is one, has its missing prefixes registered, and has the threads of
        its ancestors repaired. */
    method Insert(x: Value) returns (r: Result<()>)
      requires Valid()
      modifies this
      ensures Valid()
      ensures Normalize(x, maxLen).Err? ==> r == Err(ValueError) && unchanged(this)
      ensures Normalize(x, maxLen).Ok? ==>
                r == Ok(()) && Contents == old(Contents) + {Normalize(x, maxLen).value}
      ensures Normalize(x, maxLen).Ok? && Normalize(x, maxLen).value in old(Contents) ==> unchanged(this)
      ensures Normalize(x, maxLen).Ok? && Normalize(x, maxLen).value !in old(Contents) ==>
                count == old(count) + 1 &&
                Inserted(maxLen, root, old(levelTables), old(Contents), Normalize(x, maxLen).value, old(value),
                         old(minLeaf), old(maxLeaf), levelTables, value, leaf, left, right, parent, depth,
                         minLeaf, maxLeaf)
    {
      NormalizeMeaning(x, maxLen);
      var n := ToInt(x, maxLen);
      if n.Err? {
        return Err(n.error);
      }
      var v := n.value;
      LeafKeys(maxLen, levelTables, Contents);
      if v in levelTables[maxLen - 1] {
        return Ok(());
      }
      var tables, values, leaves, lefts, rights, parents, depths, lo, hi := InsertNew(v);
      CommitInsert(v, tables, values, leaves, lefts, rights, parents, depths, lo, hi);
      return Ok(());
    }

    /** `remove`: a value that does not normalise, or is not stored, raises ValueError and
        changes nothing. For a stored value the leaf is spliced out of the chain and
        `_min`/`_max` move off it, then the walk up the path deletes every prefix of the value
        and clears the path nodes' slots, and at the root raises KeyError: the root's key None
        is in no table. The decrement of the count after the walk is never reached, so the
        count now exceeds the number of values left by one, and the prefixes the value shared
        with the values left are gone. */
    method Remove(x: Value) returns (r: Result<()>)
      requires Valid()
      modifies this
      ensures Normalize(x, maxLen).Err? ==> r == Err(ValueError) && unchanged(this)
      ensures Normalize(x, maxLen).Ok? && Normalize(x, maxLen).value !in old(Contents) ==>
                r == Err(ValueError) && unchanged(this)
      ensures Normalize(x, maxLen).Ok? && Normalize(x, maxLen).value in old(Contents) ==>
                r == Err(KeyError) && Contents == old(Contents) - {Normalize(x, maxLen).value} &&
                count == old(count) == |Contents| + 1 &&
                value == old(value) && leaf == old(leaf) && depth == old(depth) &&
                Removed(maxLen, old(levelTables), old(Contents), Normalize(x, maxLen).value, old(left),
                        old(right), old(parent), value, old(minLeaf), old(maxLeaf), levelTables, left, right,
                        parent, minLeaf, maxLeaf)
    {
      NormalizeMeaning(x, maxLen);
      var n := ToInt(x, maxLen);
      if n.Err? {
        return Err(n.error);
      }
      var v := n.value;
      LeafKeys(maxLen, levelTables, Contents);
      if v !in levelTables[maxLen - 1] {
        return Err(ValueError);
      }
      var tables, lefts, rights, parents, lo, hi;
      r, tables, lefts, rights, parents, lo, hi := Unlink(v);
      CommitRemoval(v, tables, lefts, rights, parents, lo, hi);
    }

    /** The removal of the stored value `v`, computed on the trie's current state. */
    method Unlink(v: int)
      returns (r: Result<()>, tables: seq<Table>, lefts: seq<Option<int>>, rights: seq<Option<int>>,
               parents: seq<Option<int>>, lo: Option<int>, hi: Option<int>)
      requires Valid() && v in Contents
      ensures r == Err(KeyError)
      ensures Removed(maxLen, levelTables, Contents, v, left, right, parent, value, minLeaf, maxLeaf,
                      tables, lefts, rights, parents, lo, hi)
    {
      r, tables, lefts, rights, parents, lo, hi :=
        RemoveFound(maxLen, levelTables, root, value, leaf, left, right, parent, depth, minLeaf, maxLeaf,
                    Contents, v);
    }

    /** Writes the tables and slots computed by a removal of `v` back into the trie. */
    method CommitRemoval(ghost v: int, tables: seq<Table>, lefts: seq<Option<int>>, rights: seq<Option<int>>,
                    parents: seq<Option<int>>, lo: Option<int>, hi: Option<int>)
      modifies this
      ensures levelTables == tables && left == lefts && right == rights && parent == parents
      ensures minLeaf == lo && maxLeaf == hi && value == old(value) && leaf == old(leaf) && depth == old(depth)
      ensures Contents == old(Contents) - {v} && count == old(count)
    {
      ghost var s := Contents;
      levelTables, left, right, parent, minLeaf, maxLeaf := tables, lefts, rights, parents, lo, hi;
      Contents := s - {v};
    }

    /** `search`: the leaf holding the normalised value, None when it is not stored. */
    function Search(x: Value): (r: Result<Option<int>>)
      reads this
      requires Valid()
      ensures r.Err? <==> Normalize(x, maxLen).Err?
      ensures r.Err? ==> r.error == ValueError
      ensures r.Ok? ==> (r.value.Some? <==> Normalize(x, maxLen).value in Contents)
      ensures r.Ok? && r.value.Some? ==>
                LeafLink(levelTables[maxLen - 1], value, r.value) &&
                Target(value, r.value) == Normalize(x, maxLen).value
    {
      NormalizeMeaning(x, maxLen);
      LeafKeys(maxLen, levelTables, Contents);
      match Normalize(x, maxLen)
      case Err(e) => Err(e)
      case Ok(v) =>
        if v in levelTables[maxLen - 1] then
          PrefixEnds(maxLen, v);
          EntryOf(maxLen, levelTables, root, value, leaf, parent, depth, maxLen - 1, v);
          Ok(Some(levelTables[maxLen - 1][v]))
        else Ok(None)
    }

    /** `predecessor`: the largest stored value strictly below the normalised value (even when
        that value is itself stored); None on an empty trie; AttributeError (the `None.value`
        dereference) when nothing is stored below it. */
    method Predecessor(x: Value) returns (r: Result<Option<int>>)
      requires Valid()
      ensures Normalize(x, maxLen).Err? ==> r == Err(ValueError)
      ensures Normalize(x, maxLen).Ok? && Contents == {} ==> r == Ok(None)
      ensures Normalize(x, maxLen).Ok? && Contents != {} && NoneBelow(Contents, Normalize(x, maxLen).value) ==>
                r == Err(AttributeError)
      ensures Normalize(x, maxLen).Ok? && !NoneBelow(Contents, Normalize(x, maxLen).value) ==>
                r.Ok? && r.value.Some? && IsPred(Contents, Normalize(x, maxLen).value, r.value.value)
    {
      NormalizeMeaning(x, maxLen);
      var n := ToInt(x, maxLen);
      if n.Err? {
        return Err(n.error);
      }
      var v := n.value;
      var lf := ClosestLeaf(v);
      if lf.None? {
        return Ok(None);
      }
      var l := lf.value;
      ghost var s, lm, y := Contents, levelTables[maxLen - 1], Target(value, lf);
      LinkOf(lm, value, left, right, s, y);
      if value[l].value >= v {
        if left[l].None? {
          return Err(AttributeError);
        }
        if v !in s {
          SuccThenPred(s, v, y, Target(value, left[l]));
        }
        return Ok(value[left[l].value]);
      }
      return Ok(value[l]);
    }

    /** `successor`: the smallest stored value strictly above the normalised value; None on an
        empty trie; AttributeError when nothing is stored above it. */
    method Successor(x: Value) returns (r: Result<Option<int>>)
      requires Valid()
      ensures Normalize(x, maxLen).Err? ==> r == Err(ValueError)
      ensures Normalize(x, maxLen).Ok? && Contents == {} ==> r == Ok(None)
      ensures Normalize(x, maxLen).Ok? && Contents != {} && NoneAbove(Contents, Normalize(x, maxLen).value) ==>
                r == Err(AttributeError)
      ensures Normalize(x, maxLen).Ok? && !NoneAbove(Contents, Normalize(x, maxLen).value) ==>
                r.Ok? && r.value.Some? && IsSucc(Contents, Normalize(x, maxLen).value, r.value.value)
    {
      NormalizeMeaning(x, maxLen);
      var n := ToInt(x, maxLen);
      if n.Err? {
        return Err(n.error);
      }
      var v := n.value;
      var lf := ClosestLeaf(v);
      if lf.None? {
        return Ok(None);
      }
      var l := lf.value;
      ghost var s, lm, y := Contents, levelTables[maxLen - 1], Target(value, lf);
      LinkOf(lm, value, left, right, s, y);
      if value[l].value <= v {
        if right[l].None? {
          return Err(AttributeError);
        }
        if v !in s {
          PredThenSucc(s, v, y, Target(value, right[l]));
        }
        return Ok(value[right[l].value]);
      }
      return Ok(value[l]);
    }
  }
}
