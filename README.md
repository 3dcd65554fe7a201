# BusTub persistent trie, modelled in Dafny

BusTub's primer trie (`src/primer/trie.cpp`) is a persistent, copy-on-write
trie. It maps character-string keys to values whose type is checked when they
are read. A `Trie` is an immutable handle on a root node, and a null root is
the empty trie. `Get<T>` walks the key one character at a time from the root.
`Put<T>` and `Remove` are `const`: each returns a new trie and leaves the old
one as it was.

In the C++ code only `Trie::Get<T>` has a real body. The bodies of
`Trie::Put<T>` and `Trie::Remove` just throw `NotImplementedException`. The
model follows their doc comments instead: Put overwrites an existing key and
returns the new trie. Remove returns the original trie when the key is absent.
A node that loses its value becomes a plain node, and a node left with
neither a value nor children is removed. Put and Remove are modelled as the
recursive path rebuild that those comments describe. The commented-out draft of Put is not followed,
because it is unfinished.

Files:

- `wrappers.dfy` holds `Option`, which stands for a pointer that may be null.
- `values.dfy` holds the stored values. There is one type tag per type the
  trie is instantiated with: `uint32_t`, `uint64_t`, `std::string`,
  `Integer` (`std::unique_ptr<uint32_t>`) and `MoveBlocked`. `TagOf` gives a
  value's runtime type, which is what `dynamic_pointer_cast` checks.
- `trie.dfy` holds the model itself:
  - `Node` is a children map plus an optional value. A C++ `TrieNode` has
    `value == None`, and a `TrieNodeWithValue<T>` has a `Some` value whose
    tag is `T`'s.
  - `Trie` is a root that may be `None`.
  - `Find` is the walk, and `ValueAt` is the untyped lookup.
  - `Get` is the C++ loop, written as a `while` loop and proved against
    `ValueAt` with the type check.
  - `PutNode`/`Put` and `RemoveNode`/`Remove` are the rebuilds.
  - `Live`, `Pruned` and `Valid` give the shape invariant: no node other
    than the root of the empty trie is left with neither a value nor children.
- `trie_properties.dfy` holds the lemmas for lookup after Put and Remove,
  overwrite, structural sharing under Put and under Remove, Remove of an
  absent key, pruning, invariant preservation and the round trip `Remove(Put(t, k, v), k) == t`.

Nodes are immutable values, so "the same subtree object" is modelled as
"an equal subtree". Snapshot isolation then holds by construction: `Put` and
`Remove` are functions of the old trie, and nothing can change the old trie
afterwards.

## Model

| member | source | states |
|---|---|---|
| Trie.FindConcat | src/primer/trie.cpp:33-45 | walking `p + s` ends where walking `s` from the end of the walk for `p` ends; the loop's step-by-step walk rests on this |
| Trie.Find | src/primer/trie.cpp:33-45 | the walk from a null node reaches nothing, for every key, the empty key included; how the walk composes is FindConcat, and the loop of Get is proved equal to it |
| Trie.ValueAt | src/primer/trie.cpp:33-49 | a trie whose root is null holds nothing under any key, the empty key included; Get is proved against this lookup, and MissingChildHidesKey and EmptyKeyIsRoot state its other two cases |
| Trie.Get | src/primer/trie.cpp:26-57 | the loop returns a value iff the node at `key` exists, holds a value and that value's type is the requested one; the value returned is the one stored there |
| TrieProperties.MissingChildHidesKey | src/primer/trie.cpp:39-41 | once the walk meets a node with no child for the next character, every key continuing past that character holds nothing |
| TrieProperties.EmptyKeyIsRoot | src/primer/trie.cpp:33-56 | with the empty key the loop does not run and the root's own value is the one inspected |
| TrieProperties.PutTerminal | src/primer/trie.cpp:59-69 | after Put, the node at the key holds the new value and has exactly the children the old node there had (none if there was no node) |
| Trie.PutNode | src/primer/trie.cpp:59-69 | the rebuilt subtree holds `v` under the key; PutTerminal, PutOtherKeys, PutSharesSubtrees, PutOverwrites and PutNodeLive state the rest |
| Trie.Put | src/primer/trie.cpp:59-64 | after `t.Put(k, v)`, the lookup of `k` returns `v`, so Get at `v`'s type returns `v` and Get at any other type returns nothing; PutKeepsOtherValues, PutTwice and PutValid state the rest |
| TrieProperties.PutOtherKeys | src/primer/trie.cpp:59-69 | Put changes the value under no key other than its own, at any subtree |
| TrieProperties.PutKeepsOtherValues | src/primer/trie.cpp:59-64 | the trie-level form: for `j != k`, the lookup of `j` is the same before and after `Put(k, v)` |
| TrieProperties.PutSharesSubtrees | src/primer/trie.cpp:63-69 | every subtree at a position that is not a prefix of the key is identical before and after Put: only the path is rebuilt |
| TrieProperties.PutOverwrites | src/primer/trie.cpp:59-61 | a second Put on the same key gives the same tree as the second Put alone, even when the two values have different types |
| TrieProperties.PutTwice | src/primer/trie.cpp:59-61 | the trie-level form: `Put(Put(t, k, v1), k, v2) == Put(t, k, v2)`, and the lookup of `k` then returns `v2` |
| TrieProperties.PutNodeLive | src/primer/trie.cpp:59-69 | the node Put returns holds a value or has a child, and Put keeps a pruned subtree pruned |
| TrieProperties.PutValid | src/primer/trie.cpp:59-69 | Put keeps a valid trie valid and never returns the empty trie |
| TrieProperties.RemoveAbsentNode | src/primer/trie.cpp:131-135 | removing a key under which a subtree holds nothing returns that subtree unchanged |
| TrieProperties.RemoveAbsent | src/primer/trie.cpp:131-135 | Remove of a key that is not in the trie returns the original trie |
| TrieProperties.DroppedShape | src/primer/trie.cpp:138-139 | a node is dropped only if it is the terminal node, with a value and no children, or a plain node whose only child is on the key's path and was itself dropped |
| TrieProperties.RemoveDropsOnlyKey | src/primer/trie.cpp:131-139 | a subtree that Remove drops held nothing under any key but the removed one, so pruning loses no other value |
| Trie.RemoveNode | src/primer/trie.cpp:131-139 | after Remove, the removed key holds nothing in the rebuilt subtree; RemoveAbsentNode, RemoveOtherKeys, RemoveSharesSubtrees, RemoveNodeTerminal and RemoveNodePruned state the rest |
| Trie.Remove | src/primer/trie.cpp:131-135 | after `t.Remove(k)`, the lookup of `k` finds nothing; RemoveAbsent, RemoveThenGet, RemoveValid and RemoveUndoesPut state the rest |
| TrieProperties.RemoveSharesSubtrees | src/primer/trie.cpp:131-139 | every subtree at a position that is not a prefix of the key is identical before and after Remove: only the path is rebuilt or pruned |
| TrieProperties.RemoveOtherKeys | src/primer/trie.cpp:131-139 | Remove changes the value under no key other than its own, pruning included |
| TrieProperties.RemoveThenGet | src/primer/trie.cpp:131-139 | the trie-level form: the lookup of `k` after `Remove(k)` finds nothing, and every other key's lookup is unchanged |
| TrieProperties.RemoveNodeTerminal | src/primer/trie.cpp:138-139 | the node that held the removed value becomes a plain node with the same children, or is dropped when it has no children |
| TrieProperties.RemoveMakesPlainOrDrops | src/primer/trie.cpp:138-139 | the trie-level form of the previous row |
| TrieProperties.RemoveNodePruned | src/primer/trie.cpp:138-139 | Remove keeps a pruned subtree pruned: every node it keeps holds a value or has a child |
| TrieProperties.RemoveValid | src/primer/trie.cpp:138-139 | Remove keeps a valid trie valid; a trie left with nothing becomes the empty trie |
| TrieProperties.RemoveUndoesPutNode | src/primer/trie.cpp:131-139 | on a pruned subtree without the key, Remove after Put prunes exactly the nodes Put created and restores the subtree |
| TrieProperties.RemoveUndoesPut | src/primer/trie.cpp:131-139 | `Remove(Put(t, k, v), k) == t` for every valid trie `t` that does not hold `k` |
| TrieProperties.Scenario | src/primer/trie.cpp:20-139 | Put "a" then "ab" into the empty trie and remove "a": "ab" keeps its value, "a" holds nothing and becomes a plain node, and the earlier snapshots are unaffected |

## Left out

- `Trie::Put` and `Trie::Remove` have placeholder bodies that throw `NotImplementedException`. The model gives them the behaviour their doc comments describe and does not model the throw.
- The commented-out draft of Put is not modelled. Its recursive helper returns nothing on the non-terminal path, and it reads the child iterator without checking it against `end()`.
- `shared_ptr` reference counting, node identity and memory release are not modelled. Nodes are values, so structural sharing appears as equality of subtrees.
- `dynamic_pointer_cast` and RTTI are modelled as a comparison of explicit type tags.
- Ownership transfer (`std::move`) is not modelled. Neither are the move-only and non-movable behaviours of `Integer` and `MoveBlocked`. A value is copied freely in the model.
- A null pointer stored as a child in `children_` cannot be represented, because the children map holds nodes. Put and Remove never create one. The in-loop null check of `Get` therefore only fires for a null root.
- `Get` returns a pointer into the trie. The model returns the stored value itself, so the pointer's lifetime is not modelled.
- The trie's own header, `TrieNode::Clone` and the node constructors are not part of this model.
- C++ `char` is 8 bits wide, while keys here are Dafny strings. No property depends on the width of a character.
- The atomic swap of a published root, concurrent readers and write serialisation are left to the callers and are not modelled.
- The doc comments do not say what happens when removal leaves the root with neither a value nor children. The model then returns the empty trie, treating the root like any other node that has lost all its children.
- The comment on `Trie::Remove` says a node without children is removed. The model removes such a node only when it also holds no value. Read literally, the comment would drop an ancestor that still holds a value once its last child is pruned, losing that value; the model keeps it.
