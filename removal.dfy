/**
 * Removal: the reference definition `Removed` of the recursive, pruning `remove`,
 * and what it does to stored values, to paths and to the pruning invariant.
 */
module Removal {
  import opened Options
  import opened TrieSpec
  import opened Insertion

  /**
   * The trie `t` after removing `s`: the value at the end of the path is cleared, and
   * on the way back up each child along the path that has become empty is dropped
   * from its parent's map. A path that stops short leaves the node where it stops
   * as it is.
   */
  ghost function Removed<K, V>(t: Trie<K, V>, s: seq<K>): Trie<K, V>
    decreases |s|
  {
    if s == [] then WithValue(t, None)
    else if s[0] in t.children then
      var child := Removed(t.children[s[0]], s[1..]);
      if IsEmpty(child) then Trie(t.value, t.children - {s[0]})
      else Trie(t.value, t.children[s[0] := child])
    else t
  }

  /** After removing `s` no value is stored under `s`, and every other key keeps its value. */
  lemma {:induction false} RemovedLookup<K, V>(t: Trie<K, V>, s: seq<K>, k: seq<K>)
    ensures Lookup(Removed(t, s), k) == if k == s then None else Lookup(t, k)
    decreases |s|
  {
    if s == [] {
      WithValueElsewhere(t, None, k);
    } else if s[0] in t.children && k != [] && k[0] == s[0] {
      var child := Removed(t.children[s[0]], s[1..]);
      RemovedLookup(t.children[s[0]], s[1..], k[1..]);
      SamePrefixTail(k, s);
      if IsEmpty(child) {
        EmptyStoresNothing(child, k[1..]);
      }
    } else if s[0] !in t.children && k == s {
      assert GetNode(t, s) == None;
    }
  }

  /** Removal only ever takes paths away. */
  lemma {:induction false} RemovedPathsShrink<K, V>(t: Trie<K, V>, s: seq<K>, q: seq<K>)
    ensures HasPath(Removed(t, s), q) ==> HasPath(t, q)
    decreases |s|
  {
    if s == [] {
      WithValueElsewhere(t, None, q);
    } else if s[0] in t.children && q != [] && q[0] == s[0] {
      var child := Removed(t.children[s[0]], s[1..]);
      RemovedPathsShrink(t.children[s[0]], s[1..], q[1..]);
    }
  }

  /** Removal never leaves a dead node below the root: the pruning invariant is preserved. */
  lemma {:induction false} RemovedKeepsNoDeadNodes<K, V>(t: Trie<K, V>, s: seq<K>)
    requires NoDeadNodes(t)
    ensures NoDeadNodes(Removed(t, s))
    decreases |s|
  {
    if s != [] && s[0] in t.children {
      RemovedKeepsNoDeadNodes(t.children[s[0]], s[1..]);
    }
  }

  /**
   * Pruning is exact: when `t` has no dead node, a path survives the removal of `s`
   * exactly when it is the root or leads to a value stored under a key other than `s`.
   * So a branch disappears once the last key through it is removed, and no other does.
   */
  lemma RemovedPaths<K, V>(t: Trie<K, V>, s: seq<K>, q: seq<K>)
    requires NoDeadNodes(t)
    ensures HasPath(Removed(t, s), q) <==>
              q == [] || exists k :: k != s && Lookup(t, k).Some? && IsPrefix(q, k)
  {
    var r := Removed(t, s);
    RemovedKeepsNoDeadNodes(t, s);
    LivePaths(r, q);
    if exists k :: Lookup(r, k).Some? && IsPrefix(q, k) {
      var k :| Lookup(r, k).Some? && IsPrefix(q, k);
      RemovedLookup(t, s, k);
    }
    if exists k :: k != s && Lookup(t, k).Some? && IsPrefix(q, k) {
      var k :| k != s && Lookup(t, k).Some? && IsPrefix(q, k);
      RemovedLookup(t, s, k);
    }
  }

  /**
   * No node reached along `s` below the root is dead. A dead node has no children, so
   * only the last node that the path reaches can be one.
   */
  ghost predicate NoDeadAlong<K, V>(t: Trie<K, V>, s: seq<K>)
    decreases |s|
  {
    s == [] || (s[0] in t.children ==> !IsEmpty(t.children[s[0]]) && NoDeadAlong(t.children[s[0]], s[1..]))
  }

  /** A trie without dead nodes has none along any key. */
  lemma {:induction false} NoDeadNodesAlong<K, V>(t: Trie<K, V>, s: seq<K>)
    requires NoDeadNodes(t)
    ensures NoDeadAlong(t, s)
    decreases |s|
  {
    if s != [] && s[0] in t.children {
      NoDeadNodesAlong(t.children[s[0]], s[1..]);
    }
  }

  /**
   * Removing a key that holds no value leaves the trie unchanged exactly when no dead
   * node lies along the key; a dead node along it is pruned. Nodes off the path are
   * never visited.
   */
  lemma {:induction false} RemoveAbsentIsNoop<K, V>(t: Trie<K, V>, s: seq<K>)
    requires Lookup(t, s) == None
    ensures Removed(t, s) == t <==> NoDeadAlong(t, s)
    decreases |s|
  {
    if s != [] && s[0] in t.children {
      var child := t.children[s[0]];
      var rc := Removed(child, s[1..]);
      RemoveAbsentIsNoop(child, s[1..]);
      if IsEmpty(child) {
        assert IsEmpty(rc);
        assert s[0] !in Removed(t, s).children;
      } else if rc == child {
        assert t.children[s[0] := child] == t.children;
      } else if IsEmpty(rc) {
        assert s[0] !in Removed(t, s).children;
      } else {
        assert Removed(t, s).children[s[0]] == rc;
      }
    }
  }

  /** With no dead nodes, inserting a fresh key and removing it again restores the trie. */
  lemma RemoveUndoesInsert<K, V>(t: Trie<K, V>, s: seq<K>, v: V)
    requires NoDeadNodes(t) && Lookup(t, s) == None
    ensures Removed(Inserted(t, s, v), s) == t
  {
    var u := Inserted(t, s, v);
    InsertedKeepsNoDeadNodes(t, s, v);
    RemovedKeepsNoDeadNodes(u, s);
    forall k ensures Lookup(Removed(u, s), k) == Lookup(t, k) {
      RemovedLookup(u, s, k);
      InsertedLookup(t, s, v, k);
    }
    LiveExtensionality(Removed(u, s), t);
  }
}
