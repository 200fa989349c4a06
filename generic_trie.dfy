/**
 * The operations of the generic trie over any key token `K` (src/lib.rs).
 *
 * The trie is an owned value: a method that takes `&mut self` in the library takes
 * the trie here and returns it updated. The loops walk a cursor down one token at a
 * time exactly as the library's loops do; the cursor keeps the frames it passed
 * (`Cursors`), and putting the node back through them is the end of the borrow.
 */
module GenericTrie {
  import opened Options
  import opened TrieSpec
  import opened Cursors
  import opened Insertion
  import opened Removal

  /** `Trie::insert`: a loop that moves the cursor into the child at each token, creating it when missing. */
  method Insert<K, V>(t: Trie<K, V>, s: seq<K>, v: V) returns (r: Trie<K, V>)
    ensures r == Inserted(t, s, v)
    ensures Lookup(r, s) == Some(v)
    ensures forall p :: IsPrefix(p, s) ==> HasPath(r, p)
  {
    var context: seq<Frame<K, V>> := [];
    var node := t;
    var i := 0;
    while i < |s|
      invariant 0 <= i <= |s|
      invariant Plug(context, Inserted(node, s[i..], v)) == Inserted(t, s, v)
    {
      var c := s[i];
      var frame := Frame(node.value, node.children, c);
      assert s[i..][1..] == s[i + 1..];
      PlugPush(context, frame, Inserted(EntryOrNew(node, c), s[i + 1..], v));
      context := context + [frame];
      node := EntryOrNew(node, c);
      i := i + 1;
    }
    assert s[i..] == [];
    node := WithValue(node, Some(v));
    r := Plug(context, node);
    InsertedLookup(t, s, v, s);
    forall p | IsPrefix(p, s) ensures HasPath(r, p) {
      InsertedPaths(t, s, v, p);
    }
  }

  /** `Trie::insert_fold`: the same descent written as a fold of the entry step over the key. */
  method InsertFold<K, V>(t: Trie<K, V>, s: seq<K>, v: V) returns (r: Trie<K, V>)
    ensures r == Inserted(t, s, v)
  {
    var cur := FoldLeft(Descend, Cursor([], t), s);
    FoldDescendInserts(Cursor([], t), s, v);
    r := Plug(cur.context, WithValue(cur.node, Some(v)));
  }

  /**
   * `Trie::insert_raw`: the cursor is a raw pointer into the root, modelled as the
   * address (path) of the node it points at; each step creates the child through
   * that address and moves the address one token down.
   */
  method InsertRaw<K, V>(t: Trie<K, V>, s: seq<K>, v: V) returns (r: Trie<K, V>)
    ensures r == Inserted(t, s, v)
  {
    r := t;
    var address: seq<K> := [];
    var i := 0;
    while i < |s|
      invariant 0 <= i <= |s| && address == s[..i]
      invariant HasPath(r, address)
      invariant Inserted(r, s, v) == Inserted(t, s, v)
    {
      assert s[..i + 1] == address + [s[i]];
      EnsureChildKeepsInsert(r, address, s[i], s, v);
      r := EnsureChildAt(r, address, s[i]);
      address := address + [s[i]];
      i := i + 1;
    }
    assert address == s;
    SetValueAtIsInsert(r, s, v);
    r := SetValueAt(r, address, Some(v));
  }

  /** `Trie::contains_prefix`: follow existing edges only, failing at the first missing one. */
  method ContainsPrefix<K, V>(t: Trie<K, V>, s: seq<K>) returns (b: bool)
    ensures b <==> HasPath(t, s)
    ensures b <==> s in Paths(t)
  {
    InPathsIff(t, s);
    var node := t;
    var i := 0;
    while i < |s|
      invariant 0 <= i <= |s|
      invariant GetNode(t, s[..i]) == Some(node)
    {
      assert s[..i + 1] == s[..i] + [s[i]];
      GetNodeAppend(t, s[..i], [s[i]]);
      OneStep(node, s[i]);
      if s[i] !in node.children {
        PrefixClosed(t, s[..i + 1], s);
        return false;
      }
      node := node.children[s[i]];
      i := i + 1;
    }
    assert s[..i] == s;
    return true;
  }

  /** `Trie::get_node_ref`: the node at the end of the path, if the path exists. */
  method GetNodeRef<K, V>(t: Trie<K, V>, s: seq<K>) returns (r: Option<Trie<K, V>>)
    ensures r == GetNode(t, s)
    ensures r.Some? <==> s in Paths(t)
  {
    InPathsIff(t, s);
    var node := t;
    var i := 0;
    while i < |s|
      invariant 0 <= i <= |s|
      invariant GetNode(t, s[..i]) == Some(node)
    {
      assert s[..i + 1] == s[..i] + [s[i]];
      GetNodeAppend(t, s[..i], [s[i]]);
      GetNodeAppend(t, s[..i + 1], s[i + 1..]);
      assert s[..i + 1] + s[i + 1..] == s;
      OneStep(node, s[i]);
      if s[i] !in node.children {
        return None;
      }
      node := node.children[s[i]];
      i := i + 1;
    }
    assert s[..i] == s;
    return Some(node);
  }

  /**
   * `Trie::get_node_mut`: the same walk, returning a mutable borrow of the node: the
   * cursor whose node is the one at `s` and which gives back the trie unchanged when
   * nothing is written. What a write through it does is `PlugPlacesNode` and
   * `PlugLeavesRest`.
   */
  method GetNodeMut<K, V>(t: Trie<K, V>, s: seq<K>) returns (r: Option<Cursor<K, V>>)
    ensures r.Some? <==> HasPath(t, s)
    ensures r.Some? ==> GetNode(t, s) == Some(r.value.node)
    ensures r.Some? ==> KeysOf(r.value.context) == s && Plug(r.value.context, r.value.node) == t
  {
    var context: seq<Frame<K, V>> := [];
    var node := t;
    var i := 0;
    while i < |s|
      invariant 0 <= i <= |s|
      invariant GetNode(t, s[..i]) == Some(node)
      invariant KeysOf(context) == s[..i]
      invariant Plug(context, node) == t
    {
      assert s[..i + 1] == s[..i] + [s[i]];
      GetNodeAppend(t, s[..i], [s[i]]);
      OneStep(node, s[i]);
      if s[i] !in node.children {
        PrefixClosed(t, s[..i + 1], s);
        return None;
      }
      var frame := Frame(node.value, node.children, s[i]);
      PlugPush(context, frame, node.children[s[i]]);
      assert node.children[s[i] := node.children[s[i]]] == node.children;
      context := context + [frame];
      node := node.children[s[i]];
      i := i + 1;
    }
    assert s[..i] == s;
    return Some(Cursor(context, node));
  }

  /**
   * `Trie::list_children`: `None` when `p` is not a path; otherwise every existing path
   * strictly below `p`, each once, in an order that follows the (unspecified) order in
   * which the child map yields its keys.
   */
  method ListChildren<K(!new), V>(t: Trie<K, V>, p: seq<K>) returns (r: Option<seq<seq<K>>>)
    ensures r.Some? <==> HasPath(t, p)
    ensures r.Some? ==> Distinct(r.value) && forall q :: q in r.value <==> q in Below(t, p)
    decreases if HasPath(t, p) then NodeAt(t, p) else t
  {
    var found := GetNodeRef(t, p);
    if found.None? {
      return None;
    }
    var node := found.value;
    var ret: seq<seq<K>> := [];
    var keys := node.children.Keys;
    forall q | |p| < |q| && q[..|p|] == p && q in Below(t, p) ensures q[|p|] in keys {
      BelowSplit(t, p, node, q);
    }
    while keys != {}
      invariant keys <= node.children.Keys
      invariant Distinct(ret)
      invariant ListsBelowExcept(t, p, ret, keys)
      decreases keys
    {
      var k :| k in keys;
      var item := p + [k];
      GetNodeAppend(t, p, [k]);
      OneStep(node, k);
      var x := ListChildren(t, item);
      if x.Some? {
        ListChildrenStep(t, p, node, ret, keys, k, x.value);
        ret := ret + x.value;
      }
      ret := ret + [item];
      keys := keys - {k};
    }
    return Some(ret);
  }

  /** `ret` holds exactly the paths below `p` whose first token after `p` is not in `keys`. */
  ghost predicate ListsBelowExcept<K, V>(t: Trie<K, V>, p: seq<K>, ret: seq<seq<K>>, keys: set<K>)
  {
    && (forall q | q in ret :: |p| < |q| && q[..|p|] == p && q[|p|] !in keys && q in Below(t, p))
    && (forall q | q in Below(t, p) && |p| < |q| && q[|p|] !in keys :: q in ret)
  }

  /** The paths listed under the child at `k` all run through that child and lie below `p`. */
  lemma ListedUnderChild<K, V>(t: Trie<K, V>, p: seq<K>, node: Trie<K, V>, k: K, x: seq<seq<K>>)
    requires GetNode(t, p) == Some(node) && k in node.children
    requires forall q :: q in x <==> q in Below(t, p + [k])
    ensures p + [k] in Below(t, p)
    ensures forall q | q in x :: |p + [k]| < |q| && q[..|p|] == p && q[|p|] == k && q in Below(t, p)
  {
    var item := p + [k];
    GetNodeAppend(t, p, [k]);
    OneStep(node, k);
    BelowIff(t, p, item);
    forall q | q in x
      ensures |item| < |q| && q[..|p|] == p && q[|p|] == k && q in Below(t, p)
    {
      BelowIff(t, item, q);
      BelowIff(t, p, q);
      assert q[..|item|][..|p|] == q[..|p|];
    }
  }

  /** The loop of `ListChildren` keeps its invariant when the paths under one more key are appended. */
  lemma ListChildrenStep<K(!new), V>(t: Trie<K, V>, p: seq<K>, node: Trie<K, V>, ret: seq<seq<K>>,
                               keys: set<K>, k: K, x: seq<seq<K>>)
    requires GetNode(t, p) == Some(node) && k in keys && keys <= node.children.Keys
    requires Distinct(ret)
    requires ListsBelowExcept(t, p, ret, keys)
    requires Distinct(x) && forall q :: q in x <==> q in Below(t, p + [k])
    ensures Distinct(ret + x + [p + [k]])
    ensures ListsBelowExcept(t, p, ret + x + [p + [k]], keys - {k})
  {
    ListedUnderChild(t, p, node, k, x);
    StepDistinct(p, ret, keys, k, x);
    StepCovers(t, p, node, ret, keys, k, x);
  }

  /** After the key `k` is handled, every path below `p` through `k` is listed too. */
  lemma StepCovers<K(!new), V>(t: Trie<K, V>, p: seq<K>, node: Trie<K, V>, ret: seq<seq<K>>,
                         keys: set<K>, k: K, x: seq<seq<K>>)
    requires GetNode(t, p) == Some(node)
    requires forall q | q in Below(t, p) && |p| < |q| && q[|p|] !in keys :: q in ret
    requires forall q :: q in x <==> q in Below(t, p + [k])
    ensures forall q | q in Below(t, p) && |p| < |q| && q[|p|] !in keys - {k} :: q in ret + x + [p + [k]]
  {
    var item := p + [k];
    var out := ret + x + [item];
    forall q | q in Below(t, p) && |p| < |q| && q[|p|] !in keys - {k} ensures q in out {
      if q[|p|] == k {
        BelowIff(t, p, q);
        BelowSplit(t, p, node, q);
        assert p + [q[|p|]] == item;
        if q == item {
          assert out[|out| - 1] == q;
        } else {
          assert q in Below(t, item);
        }
      } else {
        assert q in ret;
      }
    }
  }

  /** Appending the paths under `k` and `p + [k]` itself keeps the listing free of repeats. */
  lemma StepDistinct<K>(p: seq<K>, ret: seq<seq<K>>, keys: set<K>, k: K, x: seq<seq<K>>)
    requires k in keys && Distinct(ret) && Distinct(x)
    requires forall q | q in ret :: |p| < |q| && q[|p|] !in keys
    requires forall q | q in x :: |p + [k]| < |q| && q[|p|] == k
    ensures Distinct(ret + x + [p + [k]])
  {
    DistinctAppend(ret, x);
    DistinctAppend(ret + x, [p + [k]]);
  }

  /**
   * `Trie::remove`: recursive. Clears the value at the end of the path; on the way
   * back, deletes the entry of a child that reports itself empty; returns whether
   * this node is now empty.
   */
  method Remove<K, V>(t: Trie<K, V>, s: seq<K>) returns (r: Trie<K, V>, empty: bool)
    ensures r == Removed(t, s)
    ensures empty == IsEmpty(r)
    ensures Lookup(r, s) == None
    ensures forall k :: k != s ==> Lookup(r, k) == Lookup(t, k)
    ensures NoDeadNodes(t) ==> NoDeadNodes(r)
    decreases |s|
  {
    if s == [] {
      r := WithValue(t, None);
    } else {
      var c := s[0];
      if c in t.children {
        var child, deleteChild := Remove(t.children[c], s[1..]);
        if deleteChild {
          r := Trie(t.value, t.children - {c});
        } else {
          r := Trie(t.value, t.children[c := child]);
        }
      } else {
        r := t;
      }
    }
    empty := IsEmpty(r);
    forall k ensures Lookup(r, k) == if k == s then None else Lookup(t, k) {
      RemovedLookup(t, s, k);
    }
    if NoDeadNodes(t) {
      RemovedKeepsNoDeadNodes(t, s);
    }
  }
}
