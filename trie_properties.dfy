/**
 * What `Trie::Get`, `Trie::Put` and `Trie::Remove` promise, stated over the
 * model in module `Trie` and proved for every trie, key and value.
 */
module TrieProperties {
  import opened Wrappers
  import opened Values
  import opened Trie

  /** `p` is a prefix of `k`: the walk for `k` passes through the node at `p`. */
  predicate IsPrefix(p: Key, k: Key)
  {
    |p| <= |k| && k[..|p|] == p
  }

  /** The children of the node at `key`, or none when there is no node there. */
  function ChildrenAt(root: Option<Node>, key: Key): map<char, Node>
  {
    match Find(root, key)
    case None => map[]
    case Some(n) => n.children
  }

  // ---------------------------------------------------------------- Get

  /**
   * Once the walk reaches a node with no child for the next character, no key that
   * continues past that character holds anything.
   */
  lemma {:induction false} MissingChildHidesKey(t: Trie, p: Key, c: char, s: Key)
    requires Find(t.root, p).Some? && c !in Find(t.root, p).value.children
    ensures ValueAt(t, p + [c] + s) == None
  {
    assert p + [c] + s == p + ([c] + s);
    FindConcat(t.root, p, [c] + s);
  }

  /** With the empty key the walk does not move: the value looked at is the root's own. */
  lemma {:induction false} EmptyKeyIsRoot(t: Trie)
    ensures ValueAt(t, []) == (if t.root.Some? then t.root.value.value else None)
  {
  }

  // ---------------------------------------------------------------- Put

  /**
   * After `Put(t, k, v)` the node at `k` holds `v` and has exactly the children the
   * node at `k` had before (none when there was no node there).
   */
  lemma {:induction false} PutTerminal(root: Option<Node>, k: Key, v: Value)
    ensures Find(Some(PutNode(root, k, v)), k) == Some(Node(ChildrenAt(root, k), Some(v)))
    decreases k
  {
    if k != [] {
      var base := if root.Some? then root.value else Node(map[], None);
      var child := if k[0] in base.children then Some(base.children[k[0]]) else None;
      PutTerminal(child, k[1..], v);
    }
  }

  /** `Put` changes no value stored under any other key. */
  lemma {:induction false} PutOtherKeys(root: Option<Node>, k: Key, j: Key, v: Value)
    requires j != k
    ensures ValueAt(Trie(Some(PutNode(root, k, v))), j) == ValueAt(Trie(root), j)
    decreases k
  {
    var base := if root.Some? then root.value else Node(map[], None);
    if j != [] && k != [] && j[0] == k[0] {
      var child := if k[0] in base.children then Some(base.children[k[0]]) else None;
      assert j[1..] != k[1..] by {
        assert j == [j[0]] + j[1..] && k == [k[0]] + k[1..];
      }
      PutOtherKeys(child, k[1..], j[1..], v);
    }
  }

  /** The trie-level form of `PutOtherKeys`. */
  lemma PutKeepsOtherValues(t: Trie, k: Key, j: Key, v: Value)
    requires j != k
    ensures ValueAt(Put(t, k, v), j) == ValueAt(t, j)
  {
    PutOtherKeys(t.root, k, j, v);
  }

  /**
   * Structural sharing: the subtree at any position off the key's path (a position
   * that is not a prefix of `k`) is the same before and after `Put`.
   */
  lemma {:induction false} PutSharesSubtrees(root: Option<Node>, k: Key, p: Key, v: Value)
    requires !IsPrefix(p, k)
    ensures Find(Some(PutNode(root, k, v)), p) == Find(root, p)
    decreases k
  {
    var base := if root.Some? then root.value else Node(map[], None);
    assert p != [];
    if k != [] && p[0] == k[0] {
      var child := if k[0] in base.children then Some(base.children[k[0]]) else None;
      PutSharesSubtrees(child, k[1..], p[1..], v);
    }
  }

  /** A second `Put` on the same key overwrites the first, whatever the two values' types. */
  lemma {:induction false} PutOverwrites(root: Option<Node>, k: Key, v1: Value, v2: Value)
    ensures PutNode(Some(PutNode(root, k, v1)), k, v2) == PutNode(root, k, v2)
    decreases k
  {
    if k != [] {
      var base := if root.Some? then root.value else Node(map[], None);
      var child := if k[0] in base.children then Some(base.children[k[0]]) else None;
      var p1 := PutNode(child, k[1..], v1);
      assert PutNode(root, k, v1) == Node(base.children[k[0] := p1], base.value);
      PutOverwrites(child, k[1..], v1, v2);
      assert base.children[k[0] := p1][k[0] := PutNode(child, k[1..], v2)]
          == base.children[k[0] := PutNode(child, k[1..], v2)];
    }
  }

  /** The trie-level form of `PutOverwrites`: `Get` then sees only the second value. */
  lemma PutTwice(t: Trie, k: Key, v1: Value, v2: Value)
    ensures Put(Put(t, k, v1), k, v2) == Put(t, k, v2)
    ensures ValueAt(Put(Put(t, k, v1), k, v2), k) == Some(v2)
  {
    PutOverwrites(t.root, k, v1, v2);
  }

  /** `Put` builds only nodes worth keeping, and keeps a pruned trie pruned. */
  lemma {:induction false} PutNodeLive(root: Option<Node>, k: Key, v: Value)
    requires root.Some? ==> Pruned(root.value)
    ensures Live(PutNode(root, k, v)) && Pruned(PutNode(root, k, v))
    decreases k
  {
    if k != [] {
      var base := if root.Some? then root.value else Node(map[], None);
      var child := if k[0] in base.children then Some(base.children[k[0]]) else None;
      PutNodeLive(child, k[1..], v);
      assert k[0] in PutNode(root, k, v).children;
    }
  }

  /** `Put` maps valid snapshots to valid snapshots, and never yields the empty trie. */
  lemma PutValid(t: Trie, k: Key, v: Value)
    requires Valid(t)
    ensures Valid(Put(t, k, v)) && Put(t, k, v).root.Some?
  {
    PutNodeLive(t.root, k, v);
  }

  // ---------------------------------------------------------------- Remove

  /** `Remove` of a key that holds nothing gives back the subtree unchanged. */
  lemma {:induction false} RemoveAbsentNode(n: Node, k: Key)
    requires ValueAt(Trie(Some(n)), k) == None
    ensures RemoveNode(n, k) == Some(n)
    decreases k
  {
    if k != [] && k[0] in n.children {
      var c := k[0];
      RemoveAbsentNode(n.children[c], k[1..]);
      assert n.children[c := n.children[c]] == n.children;
    }
  }

  /** `Remove` of a key that is not in the trie returns the original trie. */
  lemma RemoveAbsent(t: Trie, k: Key)
    requires ValueAt(t, k) == None
    ensures Remove(t, k) == t
  {
    if t.root.Some? {
      RemoveAbsentNode(t.root.value, k);
    }
  }

  /**
   * A subtree is dropped only when it is the terminal node with a value and no
   * children, or a plain node whose single child lies on the key's path.
   */
  lemma DroppedShape(n: Node, k: Key)
    requires RemoveNode(n, k) == None
    ensures k == [] ==> n.value.Some? && n.children == map[]
    ensures k != [] ==> n.value.None? && n.children.Keys == {k[0]}
    ensures k != [] ==> k[0] in n.children && RemoveNode(n.children[k[0]], k[1..]) == None
  {
    if k != [] {
      var c := k[0];
      assert c in n.children && RemoveNode(n.children[c], k[1..]).None?;
      assert (n.children - {c}).Keys == {};
      forall d | d in n.children.Keys ensures d == c {
        assert d == c || d in (n.children - {c}).Keys;
      }
    }
  }

  /** A subtree that `Remove` drops held nothing under any key but the one removed. */
  lemma {:induction false} RemoveDropsOnlyKey(n: Node, k: Key, j: Key)
    requires RemoveNode(n, k) == None && j != k
    ensures ValueAt(Trie(Some(n)), j) == None
    decreases k
  {
    if j != [] {
      if k == [] || j[0] !in n.children {
      } else if j[0] == k[0] {
        assert j[1..] != k[1..] by {
          assert j == [j[0]] + j[1..] && k == [k[0]] + k[1..];
        }
        assert RemoveNode(n.children[k[0]], k[1..]) == None;
        RemoveDropsOnlyKey(n.children[k[0]], k[1..], j[1..]);
      } else {
        DroppedShape(n, k);
        assert false;
      }
    }
  }

  /** `Remove` changes no value stored under any other key. */
  lemma {:induction false} RemoveOtherKeys(n: Node, k: Key, j: Key)
    requires j != k
    ensures ValueAt(Trie(RemoveNode(n, k)), j) == ValueAt(Trie(Some(n)), j)
    decreases k
  {
    if k == [] {
      if n.value.Some? && n.children == map[] {
        RemoveDropsOnlyKey(n, k, j);
      }
    } else if k[0] in n.children {
      var c := k[0];
      var removed := RemoveNode(n.children[c], k[1..]);
      if removed.None? && n.children - {c} == map[] && n.value.None? {
        RemoveDropsOnlyKey(n, k, j);
      } else if j != [] && j[0] == c {
        assert j[1..] != k[1..] by {
          assert j == [j[0]] + j[1..] && k == [k[0]] + k[1..];
        }
        RemoveOtherKeys(n.children[c], k[1..], j[1..]);
      }
    }
  }

  /**
   * Structural sharing under `Remove`: the subtree at any position off the key's
   * path (a position that is not a prefix of `k`) is the same before and after,
   * or was absent before when pruning dropped the branch it would hang from.
   */
  lemma {:induction false} RemoveSharesSubtrees(n: Node, k: Key, p: Key)
    requires !IsPrefix(p, k)
    ensures Find(RemoveNode(n, k), p) == Find(Some(n), p)
    decreases k
  {
    assert p != [];
    if k != [] && k[0] in n.children {
      var c := k[0];
      if p[0] == c {
        RemoveSharesSubtrees(n.children[c], k[1..], p[1..]);
      } else if RemoveNode(n.children[c], k[1..]).None? {
        assert p[0] in n.children <==> p[0] in n.children - {c};
      }
    }
  }

  /** The trie-level form: `Get(k)` finds nothing afterwards, every other key is as before. */
  lemma RemoveThenGet(t: Trie, k: Key, j: Key)
    ensures ValueAt(Remove(t, k), k) == None
    ensures j != k ==> ValueAt(Remove(t, k), j) == ValueAt(t, j)
  {
    if t.root.Some? && j != k {
      RemoveOtherKeys(t.root.value, k, j);
    }
  }

  /**
   * What becomes of the node that held the removed value: it turns into a plain node
   * with the same children, or is dropped when it has no children.
   */
  lemma {:induction false} RemoveNodeTerminal(n: Node, k: Key)
    requires ValueAt(Trie(Some(n)), k).Some?
    ensures Find(RemoveNode(n, k), k)
         == if ChildrenAt(Some(n), k) == map[] then None else Some(Node(ChildrenAt(Some(n), k), None))
    decreases k
  {
    if k != [] {
      var c := k[0];
      RemoveNodeTerminal(n.children[c], k[1..]);
    }
  }

  /** The trie-level form of `RemoveNodeTerminal`. */
  lemma RemoveMakesPlainOrDrops(t: Trie, k: Key)
    requires ValueAt(t, k).Some?
    ensures Find(Remove(t, k).root, k)
         == if ChildrenAt(t.root, k) == map[] then None else Some(Node(ChildrenAt(t.root, k), None))
  {
    RemoveNodeTerminal(t.root.value, k);
  }

  /** `Remove` keeps a pruned subtree pruned, and what it keeps is worth keeping. */
  lemma {:induction false} RemoveNodePruned(n: Node, k: Key)
    requires Live(n) && Pruned(n)
    ensures RemoveNode(n, k).Some? ==> Live(RemoveNode(n, k).value) && Pruned(RemoveNode(n, k).value)
    decreases k
  {
    if k != [] && k[0] in n.children {
      var c := k[0];
      RemoveNodePruned(n.children[c], k[1..]);
      var rest := n.children - {c};
      assert forall d :: d in rest ==> d in n.children;
    }
  }

  /** `Remove` maps valid snapshots to valid snapshots: no empty node survives it. */
  lemma RemoveValid(t: Trie, k: Key)
    requires Valid(t)
    ensures Valid(Remove(t, k))
  {
    if t.root.Some? {
      RemoveNodePruned(t.root.value, k);
    }
  }

  /**
   * Removing a key that a valid trie did not hold, right after putting it, prunes
   * exactly the nodes `Put` created and gives back the original trie.
   */
  lemma {:induction false} RemoveUndoesPutNode(root: Option<Node>, k: Key, v: Value)
    requires root.Some? ==> Live(root.value) && Pruned(root.value)
    requires ValueAt(Trie(root), k) == None
    ensures RemoveNode(PutNode(root, k, v), k) == root
    decreases k
  {
    if k != [] {
      var base := if root.Some? then root.value else Node(map[], None);
      var c := k[0];
      var child := if c in base.children then Some(base.children[c]) else None;
      RemoveUndoesPutNode(child, k[1..], v);
      if child.None? {
        assert base.children[c := PutNode(child, k[1..], v)] - {c} == base.children;
      } else {
        var put := PutNode(child, k[1..], v);
        assert RemoveNode(put, k[1..]) == child;
        assert base.children[c := put][c := child.value] == base.children;
      }
    }
  }

  /** The trie-level round trip: `Remove(Put(t, k, v), k) == t` when `t` did not hold `k`. */
  lemma RemoveUndoesPut(t: Trie, k: Key, v: Value)
    requires Valid(t) && ValueAt(t, k) == None
    ensures Remove(Put(t, k, v), k) == t
  {
    RemoveUndoesPutNode(t.root, k, v);
  }

  // ---------------------------------------------------------------- a worked scenario

  /**
   * Put "a" then "ab" into the empty trie, then remove "a": "ab" survives the
   * removal, "a" is gone, and the earlier snapshots are unaffected.
   */
  lemma Scenario()
    ensures var t1 := Put(EmptyTrie, "a", Uint32(1));
            var t2 := Put(t1, "ab", Uint32(2));
            var t3 := Remove(t2, "a");
            && ValueAt(t2, "a") == Some(Uint32(1))
            && ValueAt(t2, "ab") == Some(Uint32(2))
            && ValueAt(t1, "ab") == None
            && ValueAt(t2, "b") == None
            && ValueAt(t3, "a") == None
            && ValueAt(t3, "ab") == Some(Uint32(2))
            && Find(t3.root, "a") == Some(Node(map['b' := Node(map[], Some(Uint32(2)))], None))
  {
    var t1 := Put(EmptyTrie, "a", Uint32(1));
    var t2 := Put(t1, "ab", Uint32(2));
    PutKeepsOtherValues(t1, "ab", "a", Uint32(2));
    RemoveThenGet(t2, "a", "ab");
  }
}
