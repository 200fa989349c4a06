/**
 * Insertion: the reference definition `Inserted`, what it does to stored values and
 * paths, and the pieces that the three insertion loops of the library are built from
 * (the descent step of the fold, and writes addressed by a path from the root).
 */
module Insertion {
  import opened Options
  import opened TrieSpec
  import opened Cursors

  /** `children.entry(c).or_insert_with(Trie::new)`: the child at `c`, or a fresh node. */
  function EntryOrNew<K, V>(n: Trie<K, V>, c: K): (r: Trie<K, V>)
    ensures c in n.children ==> r == n.children[c]
    ensures c !in n.children ==> IsEmpty(r)
  {
    if c in n.children then n.children[c] else New()
  }

  /**
   * `entry(c).or_insert_with(Trie::new)` on the node `n`, seen from the map: afterwards
   * the entry at `c` exists, holding the old child or a new empty node; the node's
   * value and every other entry stay as they were.
   */
  lemma EntryOrInsert<K, V>(n: Trie<K, V>, c: K)
    ensures var after := Fill(Frame(n.value, n.children, c), EntryOrNew(n, c));
            && after.value == n.value
            && after.children.Keys == n.children.Keys + {c}
            && (forall d | d in n.children :: after.children[d] == n.children[d])
            && (c !in n.children ==> IsEmpty(after.children[c]))
  {
  }

  /**
   * The trie `t` with `v` stored under `s`: every node along `s` that is missing is
   * created empty, and the value at the end of `s` is overwritten.
   */
  ghost function Inserted<K, V>(t: Trie<K, V>, s: seq<K>, v: V): Trie<K, V>
    decreases |s|
  {
    if s == [] then WithValue(t, Some(v))
    else Fill(Frame(t.value, t.children, s[0]), Inserted(EntryOrNew(t, s[0]), s[1..], v))
  }

  lemma SamePrefixTail<K>(q: seq<K>, s: seq<K>)
    requires q != [] && s != [] && q[0] == s[0]
    ensures q == s <==> q[1..] == s[1..]
    ensures IsPrefix(q, s) <==> IsPrefix(q[1..], s[1..])
  {
    assert q == [q[0]] + q[1..] && s == [s[0]] + s[1..];
    if |q| <= |s| {
      assert s[..|q|] == [s[0]] + s[1..][..|q| - 1];
    }
  }

  /** After inserting `s` the key `s` holds `v`, and every other key keeps its value. */
  lemma {:induction false} InsertedLookup<K, V>(t: Trie<K, V>, s: seq<K>, v: V, k: seq<K>)
    ensures Lookup(Inserted(t, s, v), k) == if k == s then Some(v) else Lookup(t, k)
    decreases |s|
  {
    if s == [] {
      WithValueElsewhere(t, Some(v), k);
    } else if k != [] && k[0] == s[0] {
      var child := EntryOrNew(t, s[0]);
      InsertedLookup(child, s[1..], v, k[1..]);
      SamePrefixTail(k, s);
      if s[0] !in t.children {
        EmptyStoresNothing(child, k[1..]);
      }
    }
  }

  /**
   * After inserting `s` the existing paths are the old ones together with every
   * prefix of `s`: `contains_prefix` holds for all of them.
   */
  lemma {:induction false} InsertedPaths<K, V>(t: Trie<K, V>, s: seq<K>, v: V, q: seq<K>)
    ensures HasPath(Inserted(t, s, v), q) <==> HasPath(t, q) || IsPrefix(q, s)
    decreases |s|
  {
    if s == [] {
      WithValueElsewhere(t, Some(v), q);
    } else if q != [] && q[0] == s[0] {
      var child := EntryOrNew(t, s[0]);
      InsertedPaths(child, s[1..], v, q[1..]);
      SamePrefixTail(q, s);
      if s[0] !in t.children {
        EmptyStoresNothing(child, q[1..]);
      }
    }
  }

  /** Inserting the same key twice keeps only the second value: the trie is as if only it was inserted. */
  lemma {:induction false} InsertedOverwrites<K, V>(t: Trie<K, V>, s: seq<K>, v1: V, v2: V)
    ensures Inserted(Inserted(t, s, v1), s, v2) == Inserted(t, s, v2)
    decreases |s|
  {
    if s != [] {
      var c := s[0];
      var child := EntryOrNew(t, c);
      var once := Inserted(t, s, v1);
      assert EntryOrNew(once, c) == Inserted(child, s[1..], v1);
      InsertedOverwrites(child, s[1..], v1, v2);
      assert t.children[c := Inserted(child, s[1..], v1)][c := Inserted(child, s[1..], v2)]
          == t.children[c := Inserted(child, s[1..], v2)];
    }
  }

  /** Insertion never creates a dead node: the pruning invariant is preserved. */
  lemma {:induction false} InsertedKeepsNoDeadNodes<K, V>(t: Trie<K, V>, s: seq<K>, v: V)
    requires NoDeadNodes(t)
    ensures NoDeadNodes(Inserted(t, s, v)) && !IsEmpty(Inserted(t, s, v))
    decreases |s|
  {
    if s != [] {
      InsertedKeepsNoDeadNodes(EntryOrNew(t, s[0]), s[1..], v);
    }
  }

  // ---------------------------------------------------------------------------
  // The fold of `insert_fold`

  function FoldLeft<A, T>(f: (A, T) -> A, init: A, s: seq<T>): A
    decreases |s|
  {
    if s == [] then init else FoldLeft(f, f(init, s[0]), s[1..])
  }

  /**
   * The closure folded over the key: step from the cursor's node into the entry at
   * `c`. An occupied entry is borrowed as it is, so putting the cursor back gives the
   * same trie; a vacant one receives a new empty node first, which putting the cursor
   * back leaves in place.
   */
  function Descend<K, V>(cur: Cursor<K, V>, c: K): (r: Cursor<K, V>)
    ensures KeysOf(r.context) == KeysOf(cur.context) + [c]
    ensures c in cur.node.children ==> r.node == cur.node.children[c] && Plug(r.context, r.node) == Plug(cur.context, cur.node)
    ensures c !in cur.node.children ==> IsEmpty(r.node)
    ensures c !in cur.node.children ==> Plug(r.context, r.node) == Plug(cur.context, Trie(cur.node.value, cur.node.children[c := New()]))
  {
    var frame := Frame(cur.node.value, cur.node.children, c);
    PlugPush(cur.context, frame, EntryOrNew(cur.node, c));
    assert c in cur.node.children ==> cur.node.children[c := cur.node.children[c]] == cur.node.children;
    Cursor(cur.context + [frame], EntryOrNew(cur.node, c))
  }

  /**
   * Folding `Descend` over `s` and then setting the value at the cursor reached is
   * inserting `s` below the starting cursor.
   */
  lemma {:induction false} FoldDescendInserts<K, V>(cur: Cursor<K, V>, s: seq<K>, v: V)
    ensures var end := FoldLeft(Descend, cur, s);
            Plug(end.context, WithValue(end.node, Some(v))) == Plug(cur.context, Inserted(cur.node, s, v))
    decreases |s|
  {
    if s != [] {
      var next := Descend(cur, s[0]);
      FoldDescendInserts(next, s[1..], v);
      PlugPush(cur.context, Frame(cur.node.value, cur.node.children, s[0]), Inserted(next.node, s[1..], v));
    }
  }

  // ---------------------------------------------------------------------------
  // Writes addressed by a path from the root, the raw pointer of `insert_raw`

  /**
   * Create the child at `c` of the node at address `p`, if it is missing: afterwards
   * the entry exists one token below the address, holding the old child or a new
   * empty node, and an occupied entry leaves the whole trie as it was.
   */
  function EnsureChildAt<K, V>(t: Trie<K, V>, p: seq<K>, c: K): (r: Trie<K, V>)
    requires HasPath(t, p)
    ensures HasPath(r, p) && GetNode(r, p + [c]) == Some(EntryOrNew(NodeAt(t, p), c))
    ensures c in NodeAt(t, p).children ==> r == t
    decreases |p|
  {
    if p == [] then
      var r := if c in t.children then t else Trie(t.value, t.children[c := New()]);
      OneStep(r, c);
      assert p + [c] == [c];
      r
    else
      var child := EnsureChildAt(t.children[p[0]], p[1..], c);
      assert (p + [c])[0] == p[0] && (p + [c])[1..] == p[1..] + [c];
      assert child == t.children[p[0]] ==> t.children[p[0] := child] == t.children;
      Trie(t.value, t.children[p[0] := child])
  }

  /** Store `v` in the node at address `p`: that node then holds `v` and keeps its children. */
  function SetValueAt<K, V>(t: Trie<K, V>, p: seq<K>, v: Option<V>): (r: Trie<K, V>)
    requires HasPath(t, p)
    ensures GetNode(r, p) == Some(WithValue(NodeAt(t, p), v))
    decreases |p|
  {
    if p == [] then WithValue(t, v)
    else Trie(t.value, t.children[p[0] := SetValueAt(t.children[p[0]], p[1..], v)])
  }

  /**
   * Creating, ahead of time, the next node along the key being inserted neither
   * changes what the insertion produces nor leaves the new address dangling.
   */
  lemma {:induction false} EnsureChildKeepsInsert<K, V>(t: Trie<K, V>, p: seq<K>, c: K, s: seq<K>, v: V)
    requires HasPath(t, p) && IsPrefix(p + [c], s)
    ensures HasPath(EnsureChildAt(t, p, c), p + [c])
    ensures Inserted(EnsureChildAt(t, p, c), s, v) == Inserted(t, s, v)
    decreases |p|
  {
    var u := EnsureChildAt(t, p, c);
    assert s[0] == (p + [c])[0];
    if p == [] {
      assert p + [c] == [c];
      OneStep(u, c);
      if c !in t.children {
        assert t.children[c := New()][c := Inserted(New(), s[1..], v)]
            == t.children[c := Inserted(New(), s[1..], v)];
      }
    } else {
      var child := t.children[p[0]];
      SamePrefixTail(p + [c], s);
      assert (p + [c])[1..] == p[1..] + [c];
      EnsureChildKeepsInsert(child, p[1..], c, s[1..], v);
      assert (p + [c])[0] == p[0];
      assert t.children[p[0] := EnsureChildAt(child, p[1..], c)][p[0] := Inserted(EnsureChildAt(child, p[1..], c), s[1..], v)]
          == t.children[p[0] := Inserted(child, s[1..], v)];
    }
  }

  /** Once the whole path exists, writing the value through its address is inserting. */
  lemma {:induction false} SetValueAtIsInsert<K, V>(t: Trie<K, V>, s: seq<K>, v: V)
    requires HasPath(t, s)
    ensures SetValueAt(t, s, Some(v)) == Inserted(t, s, v)
    decreases |s|
  {
    if s != [] {
      SetValueAtIsInsert(t.children[s[0]], s[1..], v);
    }
  }
}
