# X-fast trie, modelled and verified in Dafny

This project models `XFastTrie` from `x_fast_trie.py`. It is an ordered set over the integers
`[0, 2^W)`, where `W` is the trie's `_maxlen`. The trie keeps one hash table per level, holding
the prefixes of the stored values. It also keeps an ascending doubly linked chain of leaves,
with `_min` and `_max` at its two ends. Each internal node's empty child slot holds a
"descendant thread": the smallest leaf of its right subtree in the left slot, the largest leaf
of its left subtree in the right slot.

The model is imperative, like the source:

- `XFast.XFastTrie` is a class. Its fields are the level tables (`seq<map<int, int>>`, one map per
  level), `count`, `minLeaf`, `maxLeaf`, and an arena of nodes.
- The arena is a set of parallel sequences `value`, `leaf`, `left`, `right` and `parent`, indexed
  by node id. A `TrieNode` reference becomes a node id, and `None` becomes `Option.None`. The root
  is node 0.
- A ghost `Contents` set holds the stored values, and a ghost `depth` sequence holds each node's
  level.
- `Valid()` is `Layout.TrieOK` plus `count == |Contents|`. It says:
  - every level table holds exactly the prefixes of the stored values;
  - each table entry names a node carrying that prefix, hung under the node one level up;
  - the chain is ascending and complete, and `_min` and `_max` are its ends;
  - every internal node obeys the thread rule.
- The loops of `_to_int`, `_closest_ancestor`, `insert` and `remove` are `while` loops with
  their invariants.
- `insert` and `remove` compute the new tables and arena as values (`InsertNew`, `Unlink`).
  They then write the values back into the fields (`CommitInsert`, `CommitRemoval`).

Where the source and the design description of the system disagree, the model follows the source:

- There are `W` level tables, not `W + 1`. Level `k` is keyed by the `(k+1)`-bit prefix, and the
  root, outside every table, is reported as level −1.
- The leaf chain has no sentinels. Its ends are `None`.
- `remove` does not retire only the nodes left without descendants, and it does not repair
  threads. It deletes the table entry of every node on the removed leaf's path, including
  prefixes shared with the values that remain, and clears those nodes' slots. The walk then
  reaches the root. There it evaluates `del self._level_tables[-1][None]`, and `None` is a key of
  no table, so it raises KeyError. This leaves the state changed and `_count` not decremented.
  `Remove` models exactly this, returning `Err(KeyError)`. It does not claim that `Valid()`
  survives, because it does not.
- `predecessor` and `successor` read `leaf.left.value` and `leaf.right.value`. When no stored
  value lies on that side, the link is `None`, so the code fails. The model returns
  `Err(AttributeError)` there.
- `insert` of a stored value and a failed lookup return nothing and raise nothing. The design's
  boolean results do not exist in the code.
- `_closest_leaf` breaks a distance tie in favour of the chain neighbour `other`.
  `XFast.NearerLeaf` and `ClosestLeaf` state the result as the nearest stored value, where any
  other stored value at the same distance agrees with the queried value on a longer prefix.

## Model

| member | source | states |
|---|---|---|
| Input.NormalizeMeaning | x_fast_trie.py:42-54 | An int is accepted exactly when `0 <= i < 2^W` and is returned unchanged. Bytes are accepted exactly when `8·len <= W` and read big-endian. Every rejection is ValueError, and every accepted result lies in `[0, 2^W)`. |
| Input.ToInt | x_fast_trie.py:42-54 | The normaliser with the byte-folding loop `result = (result << 8) \| b` returns the value Normalize specifies, inside `[0, 2^W)`. |
| Input.BitLengthBound | x_fast_trie.py:44 | `bit_length() <= W` holds exactly when the value is below `2^W`. |
| Input.BigEndianBound | x_fast_trie.py:49-54 | A folded byte string of length `len` is below `2^(8·len)`, so accepted bytes always fit the universe. |
| Input.BigEndianToBytes | x_fast_trie.py:51-54 | Folding the `len` big-endian bytes of `n < 2^(8·len)` gives back `n`. |
| Input.ToBytesBigEndian | x_fast_trie.py:51-54 | Re-encoding the folded value at the same length gives back the original bytes, so the fold is injective per length. |
| Bits.PrefixParent | x_fast_trie.py:71 | The prefix at level `k` is twice the prefix at level `k-1` plus its last bit. |
| Bits.PrefixEnds | x_fast_trie.py:71 | The prefix at level `W-1` is the value itself, and at level −1 it is 0, for every value of the universe `[0, 2^W)`. |
| Bits.PrefixOrder | x_fast_trie.py:71 | A smaller prefix at any level means a smaller value. |
| Bits.PrefixAgreeUp | x_fast_trie.py:71 | Values sharing a prefix at level `k` share it at every shallower level. |
| XFast.MakeTables | x_fast_trie.py:37-39 | `W` level tables, all empty. |
| XFast.XFastTrie.constructor | x_fast_trie.py:27-33 | A new trie is valid, has width `W`, and holds no value. |
| XFast.XFastTrie.ClosestAncestor | x_fast_trie.py:60-80 | The binary search returns level −1 with the root, or a level whose table holds the value's prefix with that entry's node. When the tables are prefix-closed, no deeper level holds the prefix. |
| Shape.ClosedAlongAll | x_fast_trie.py:69-78 | Tables holding exactly the prefixes of a set are prefix-closed along every value, which is what makes the binary search sound. |
| Shape.AncestorLeaf | x_fast_trie.py:86-89 | The deepest matching node is a leaf exactly when the value is stored, and then it is the value's own leaf. On an empty trie the search stays at the root. |
| Shape.ThreadNeighbour | x_fast_trie.py:91-92 | Below the deepest matching node, the slot on the value's side is a leaf. It is the value's successor when the next bit is 0 and its predecessor when it is 1. |
| Shape.ChooseAbove | x_fast_trie.py:97-106 | Choosing between the successor and the chain neighbour below it by strict distance picks the nearest stored value, and ties go to the value sharing the shorter prefix. |
| Shape.ChooseBelow | x_fast_trie.py:97-106 | The mirror image, for a predecessor and the chain neighbour above it. |
| XFast.NearerLeaf | x_fast_trie.py:97-106 | The leaf returned is a chain leaf, is the value's predecessor or successor, and is the nearest stored value under the tie rule. |
| XFast.XFastTrie.ClosestLeaf | x_fast_trie.py:82-106 | On a valid trie: None exactly when the trie is empty; the value's own leaf when the value is stored; otherwise the predecessor's or the successor's leaf, whichever is nearer, under the tie rule. |
| XFast.XFastTrie.Neighbours | x_fast_trie.py:115-121 | For an absent value, the two leaves found are its predecessor and successor links in the chain, or None at an end. |
| XFast.XFastTrie.AddLeaf | x_fast_trie.py:123-133 | The new leaf is appended to the arena between `pred` and `succ`, both neighbours point to it, and `_min`/`_max` move to it only when it is a new extreme. |
| Grow.LinkIn | x_fast_trie.py:123-128 | Linking the new leaf between its predecessor and successor keeps the chain ascending and complete for the enlarged set. |
| Grow.EndsIn | x_fast_trie.py:130-133 | The moved `_min`/`_max` are the ends of the enlarged chain. |
| XFast.XFastTrie.Descend | x_fast_trie.py:135-155 | The downward loop registers every missing prefix of the value. Each new node hangs under the node one level up, and the new leaf becomes the thread of each new node's empty side. The arena only grows. |
| Phases.DescentStep | x_fast_trie.py:138-155 | One iteration of the downward loop preserves the loop invariant (tables, nodes, chain and slots). |
| Grow.RepairAt | x_fast_trie.py:157-163 | At an ancestor, replacing a left thread greater than the value, or a right thread smaller than it, by the new leaf restores the thread rule for the enlarged set. |
| XFast.XFastTrie.Descent | x_fast_trie.py:135-155 | After the downward loop, every prefix of the value is registered (the tables grew by exactly those prefixes), the arena only grew, and the state satisfies the invariant the upward pass starts from, at the new leaf. |
| XFast.XFastTrie.InsertPath | x_fast_trie.py:135-163 | The downward loop followed by the upward repair pass, from the deepest ancestor, yields a valid trie for the enlarged set whose tables gained exactly the value's prefixes, as Phases.Inserted describes. |
| XFast.XFastTrie.RepairThreads | x_fast_trie.py:157-163 | The upward pass ends with every invariant of the trie holding for the enlarged set. |
| Phases.InsertEnd | x_fast_trie.py:110-165 | The state after the upward pass is a valid trie for `s + {v}`. Its tables gained exactly `v`'s prefixes, with the last one mapping to the new leaf. |
| XFast.XFastTrie.InsertNew | x_fast_trie.py:115-163 | Inserting an absent value yields a valid trie holding it, as Phases.Inserted describes. |
| XFast.XFastTrie.CommitInsert | x_fast_trie.py:165 | The computed state is written back and `_count` grows by one. |
| XFast.XFastTrie.Insert | x_fast_trie.py:110-165 | Invalid input raises ValueError and changes nothing. A stored value changes nothing. A new value is stored, `_count` grows by one, and the trie stays valid. |
| XFast.XFastTrie.Search | x_fast_trie.py:212-220 | ValueError exactly on invalid input. Otherwise it returns the value's leaf exactly when the value is stored, and None otherwise. |
| Shape.LeafKeys | x_fast_trie.py:112 | The keys of the last table are exactly the stored values, so `value in self._level_tables[-1]` is the membership test. |
| XFast.XFastTrie.Predecessor | x_fast_trie.py:197-202 | ValueError on invalid input and None on an empty trie. Otherwise the largest stored value strictly below the query, even when the query is stored, or AttributeError when there is none. |
| XFast.XFastTrie.Successor | x_fast_trie.py:204-209 | ValueError on invalid input and None on an empty trie. Otherwise the smallest stored value strictly above the query, or AttributeError when there is none. |
| Order.SuccThenPred | x_fast_trie.py:202 | For an absent value, the chain predecessor of its successor is its own predecessor. |
| Order.PredThenSucc | x_fast_trie.py:209 | For an absent value, the chain successor of its predecessor is its own successor. |
| Removal.Splice | x_fast_trie.py:174-183 | Unlinking the leaf (`pred.right = succ`, `succ.left = pred`) and moving `_min` to `succ` and `_max` to `pred` when they were on it leaves an ascending, complete chain of the other values, with `_min`/`_max` at its ends. |
| Removal.LinkOut | x_fast_trie.py:174-178 | The splice keeps the chain of the remaining values ascending and complete. |
| Removal.EndsOut | x_fast_trie.py:180-183 | After the move, `_min` and `_max` are the least and greatest remaining values, or both None when nothing is left. |
| Removal.DeletePath | x_fast_trie.py:185-191 | The teardown loop deletes `v`'s prefix at every level, shared ones included, and clears the slots and parent of every node on the path. It then always ends in KeyError at the root. |
| Removal.ChainCut | x_fast_trie.py:189 | Clearing the slots of nodes that are not leaves of remaining values leaves their chain intact. |
| Removal.PathAvoidsLeaves | x_fast_trie.py:186-191 | No remaining value's leaf lies on the removed value's path. |
| Removal.RemoveFound | x_fast_trie.py:174-191 | Removing a stored value yields KeyError and the state Removal.Removed describes. That state includes a valid chain and valid ends for the remaining values. |
| Removal.SharedPrefixLost | x_fast_trie.py:185-191 | A remaining value that shares a prefix with the removed one has lost that prefix's entry, so the tables no longer describe the remaining values. |
| XFast.XFastTrie.Unlink | x_fast_trie.py:174-191 | The removal computed on the current state ends in KeyError with the state Removal.Removed describes. |
| XFast.XFastTrie.CommitRemoval | x_fast_trie.py:174-193 | The tables, slots and ends computed for the removal are written back, the value leaves the stored set, and `_count` keeps its old value because the decrement of line 193 is never reached. |
| XFast.XFastTrie.Remove | x_fast_trie.py:167-193 | Invalid input or an absent value raises ValueError and changes nothing. A stored value raises KeyError after the splice and the teardown. It leaves `_count` one above the number of values left, and the remaining values still chained between `_min` and `_max`. |

The functions `Grow.RepairLeft` and `Grow.RepairRight` (one slot rewrite of x_fast_trie.py:159-162) and
`Removal.Relink` and `Removal.Cleared` (the slot assignments of x_fast_trie.py:175-178 and 189) are
helpers that spell out single statements. What they achieve is stated by the `Grow.RepairAt`,
`Removal.Splice`, `Removal.LinkOut` and `Removal.ChainCut` rows.

## Left out

- `main.py` is the interactive menu around the class. It is input and output only, and not part of this model.
- `HopscotchDict` is the hash table behind every level. It is modelled as a Dafny `map`, and its hashing and probing are not part of this model.
- The `TypeError` branch of `_to_int` is not modelled. Input is the datatype `Int | Bytes`, so no other type can be passed.
- The default width `sys.maxsize.bit_length() + 1` is not modelled. The width is a constructor argument of at least 1.
- Node identity is modelled by arena ids. Nodes that `remove` detaches stay in the arena, because the model does not collect garbage.
- XFast.XFastTrie.Remove: does not state `Valid()` afterwards, because the code breaks it. The count is one too high. The prefixes shared with remaining values are deleted. The cleared slots of shared ancestors lose their links to the remaining values below them.
- No operation of the trie is modelled after a `remove`. Every operation requires `Valid()`, which `remove` does not preserve.
