/**
 * A persistent, copy-on-write trie from character-string keys to typed values.
 *
 * A C++ `TrieNode` is a `Node` whose `value` is `None`; a `TrieNodeWithValue<T>`
 * is a `Node` whose `value` is `Some(v)` with `TagOf(v)` the tag of `T`. Nodes are
 * immutable values, so sharing an unchanged subtree between two snapshots is the
 * same thing as the two snapshots holding equal subtrees.
 */
module Trie {
  import opened Wrappers
  import opened Values

  type Key = string

  datatype Node = Node(children: map<char, Node>, value: Option<Value>)

  /** A snapshot: `root == None` is the empty trie (a null `root_`). */
  datatype Trie = Trie(root: Option<Node>)

  const EmptyTrie: Trie := Trie(None)

  /**
   * The node reached by walking `key` one character at a time from `root`, if any.
   * Nothing is reached from a null node, not even with the empty key.
   */
  function Find(root: Option<Node>, key: Key): (r: Option<Node>)
    ensures root.None? ==> r.None?
    decreases key
  {
    if key == [] then root
    else match root
      case None => None
      case Some(n) => if key[0] in n.children then Find(Some(n.children[key[0]]), key[1..]) else None
  }

  /**
   * The value stored under `key`, whatever its type. A trie whose root is null holds
   * nothing, under any key, the empty key included.
   */
  function ValueAt(t: Trie, key: Key): (r: Option<Value>)
    ensures t.root.None? ==> r.None?
  {
    match Find(t.root, key)
    case None => None
    case Some(n) => n.value
  }

  /** Walking `p + s` is walking `p`, then walking `s` from wherever that ended. */
  lemma {:induction false} FindConcat(root: Option<Node>, p: Key, s: Key)
    ensures Find(root, p + s) == Find(Find(root, p), s)
    decreases p
  {
    if p == [] {
      assert p + s == s;
    } else if root.Some? && p[0] in root.value.children {
      assert (p + s)[1..] == p[1..] + s;
      FindConcat(Some(root.value.children[p[0]]), p[1..], s);
    } else {
      assert (p + s)[0] == p[0];
    }
  }

  /**
   * `Trie::Get<T>`: walk the key from the root, giving up as soon as the current
   * node is null or has no child for the next character; at the end, return the
   * terminal node's value only if the node holds one and its type is `tag`.
   */
  method Get(t: Trie, key: Key, tag: TypeTag) returns (r: Option<Value>)
    ensures r.Some? <==> ValueAt(t, key).Some? && TagOf(ValueAt(t, key).value) == tag
    ensures r.Some? ==> r == ValueAt(t, key)
  {
    var current := t.root;
    var i := 0;
    while i < |key|
      invariant 0 <= i <= |key|
      invariant current == Find(t.root, key[..i])
    {
      assert key == key[..i] + key[i..];
      FindConcat(t.root, key[..i], key[i..]);
      if current.None? {
        return None;
      }
      var node := current.value;
      if key[i] !in node.children {
        return None;
      }
      assert key[..i + 1] == key[..i] + [key[i]];
      FindConcat(t.root, key[..i], [key[i]]);
      current := Some(node.children[key[i]]);
      i := i + 1;
    }
    assert key[..i] == key;
    if current.None? {
      return None;
    }
    match current.value.value
    case None =>
      r := None;
    case Some(v) =>
      r := if TagOf(v) == tag then Some(v) else None;
  }

  /**
   * The copy-on-write path rebuild behind `Trie::Put`: every node on the key's path
   * is a copy of the existing node there (or a fresh empty node), the terminal node
   * keeps its children and takes the value `v`, and every other subtree is reused.
   */
  function PutNode(n: Option<Node>, key: Key, v: Value): (r: Node)
    ensures Find(Some(r), key).Some? && Find(Some(r), key).value.value == Some(v)
    decreases key
  {
    var base := if n.Some? then n.value else Node(map[], None);
    if key == [] then Node(base.children, Some(v))
    else
      var c := key[0];
      var child := if c in base.children then Some(base.children[c]) else None;
      Node(base.children[c := PutNode(child, key[1..], v)], base.value)
  }

  /**
   * `Trie::Put`: a new snapshot in which `key` holds `v`, so that `Get` with `v`'s
   * type returns `v`; `t` itself is untouched.
   */
  function Put(t: Trie, key: Key, v: Value): (r: Trie)
    ensures ValueAt(r, key) == Some(v)
  {
    Trie(Some(PutNode(t.root, key, v)))
  }

  /**
   * The path rebuild behind `Trie::Remove`, applied to the subtree `n`. `None` means
   * the subtree is dropped from its parent. If `key` holds no value below `n`, `n` is
   * returned as it is. Otherwise the terminal node becomes a plain node, or is dropped
   * when it has no children, and each ancestor left with neither a value nor children
   * is dropped in turn.
   */
  function RemoveNode(n: Node, key: Key): (r: Option<Node>)
    ensures ValueAt(Trie(r), key) == None
    decreases key
  {
    if key == [] then
      if n.value.None? then Some(n)
      else if n.children == map[] then None
      else Some(Node(n.children, None))
    else if key[0] !in n.children then Some(n)
    else
      var c := key[0];
      match RemoveNode(n.children[c], key[1..])
      case Some(child) => Some(Node(n.children[c := child], n.value))
      case None =>
        var rest := n.children - {c};
        if rest == map[] && n.value.None? then None else Some(Node(rest, n.value))
  }

  /**
   * `Trie::Remove`: the snapshot without `key`, in which `Get` finds nothing under
   * `key`; the empty trie once nothing is left.
   */
  function Remove(t: Trie, key: Key): (r: Trie)
    ensures ValueAt(r, key) == None
  {
    match t.root
    case None => t
    case Some(n) => Trie(RemoveNode(n, key))
  }

  /** A node that is worth keeping: it holds a value or has a child. */
  predicate Live(n: Node)
  {
    n.value.Some? || n.children != map[]
  }

  /** No node below `n` is an empty leftover: every descendant is `Live`. */
  predicate Pruned(n: Node)
  {
    forall c :: c in n.children ==> Live(n.children[c]) && Pruned(n.children[c])
  }

  /** The shape every snapshot built by `Put` and `Remove` from the empty trie has. */
  predicate Valid(t: Trie)
  {
    t.root.Some? ==> Live(t.root.value) && Pruned(t.root.value)
  }
}
