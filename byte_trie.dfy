/**
 * The byte-keyed trie behind the `PrefixTrie` trait (src/assoc.rs).
 *
 * It has the node shape of the generic trie with `u8` key tokens, and its own copies
 * of the cursor loops and of the recursive `remove`. Each operation is proved against
 * the same reference definitions as the generic one, so the two agree on every input.
 */
module ByteTrie {
  import opened Options
  import T = TrieSpec
  import opened Cursors
  import opened Insertion
  import opened Removal

  /** A key token: an unsigned 8-bit byte. */
  newtype Byte = x: int | 0 <= x < 0x100

  type Trie<V> = T.Trie<Byte, V>

  /** `PrefixTrie::new`: stores nothing, has only the root path, and is empty. */
  function New<V>(): (r: Trie<V>)
    ensures IsEmpty(r)
    ensures forall k :: T.Lookup(r, k) == None && (T.HasPath(r, k) <==> k == [])
  {
    T.Trie(None, map[])
  }

  /** `PrefixTrie::is_empty`: true exactly when the node stores no value and has no path below it. */
  function IsEmpty<V>(t: Trie<V>): (b: bool)
    ensures b <==> T.Lookup(t, []) == None && T.Paths(t) == {[]}
    ensures b <==> T.IsEmpty(t)
  {
    T.OnlyRootPath(t);
    t.value.None? && |t.children| == 0
  }

  /**
   * `PrefixTrie::insert`: walk the bytes, taking the entry for each one and creating
   * it when vacant, then store the value: it replaces an earlier one under the same
   * bytes and leaves every other key alone.
   */
  method Insert<V>(t: Trie<V>, s: seq<Byte>, v: V) returns (r: Trie<V>)
    ensures r == Inserted(t, s, v)
    ensures T.HasPath(r, s) && T.Lookup(r, s) == Some(v)
    ensures forall k | k != s :: T.Lookup(r, k) == T.Lookup(t, k)
  {
    var context: seq<Frame<Byte, V>> := [];
    var node := t;
    for i := 0 to |s|
      invariant Plug(context, Inserted(node, s[i..], v)) == Inserted(t, s, v)
    {
      var frame := Frame(node.value, node.children, s[i]);
      assert s[i..][1..] == s[i + 1..];
      PlugPush(context, frame, Inserted(EntryOrNew(node, s[i]), s[i + 1..], v));
      context := context + [frame];
      node := EntryOrNew(node, s[i]);
    }
    assert s[|s|..] == [];
    r := Plug(context, T.WithValue(node, Some(v)));
    InsertedPaths(t, s, v, s);
    forall k ensures T.Lookup(r, k) == if k == s then Some(v) else T.Lookup(t, k) {
      InsertedLookup(t, s, v, k);
    }
  }

  /** `PrefixTrie::insert_fold`: the entry step folded over the bytes; the same trie as `Insert`. */
  method InsertFold<V>(t: Trie<V>, s: seq<Byte>, v: V) returns (r: Trie<V>)
    ensures r == Inserted(t, s, v)
    ensures T.Lookup(r, s) == Some(v)
    ensures forall k | k != s :: T.Lookup(r, k) == T.Lookup(t, k)
  {
    var cur := FoldLeft(Descend, Cursor([], t), s);
    FoldDescendInserts(Cursor([], t), s, v);
    r := Plug(cur.context, T.WithValue(cur.node, Some(v)));
    forall k ensures T.Lookup(r, k) == if k == s then Some(v) else T.Lookup(t, k) {
      InsertedLookup(t, s, v, k);
    }
  }

  /**
   * `PrefixTrie::contains_prefix`: true exactly when each byte in turn leaves the node
   * reached so far by an existing edge, which is when the path `s` exists; always
   * true for no bytes.
   */
  method ContainsPrefix<V>(t: Trie<V>, s: seq<Byte>) returns (b: bool)
    ensures b <==> forall i | 0 <= i < |s| :: EdgeAt(t, s, i)
    ensures b <==> T.HasPath(t, s)
    ensures s == [] ==> b
  {
    var node := t;
    for i := 0 to |s|
      invariant T.GetNode(t, s[..i]) == Some(node)
      invariant forall j | 0 <= j < i :: EdgeAt(t, s, j)
    {
      assert s[..i + 1] == s[..i] + [s[i]];
      T.GetNodeAppend(t, s[..i], [s[i]]);
      T.OneStep(node, s[i]);
      if s[i] !in node.children {
        T.PrefixClosed(t, s[..i + 1], s);
        assert !EdgeAt(t, s, i);
        return false;
      }
      node := node.children[s[i]];
    }
    assert s[..|s|] == s;
    return true;
  }

  /** The `i`-th byte of `s` leaves the node at the first `i` bytes by an existing edge. */
  ghost predicate EdgeAt<V>(t: Trie<V>, s: seq<Byte>, i: int)
    requires 0 <= i < |s|
  {
    match T.GetNode(t, s[..i])
    case Some(n) => s[i] in n.children
    case None => false
  }

  /**
   * `PrefixTrie::remove`: with no bytes left, clear this node's value and keep its
   * children; otherwise recurse into the entry of the first byte, if occupied, and
   * delete that entry exactly when the recursive call reports the child empty. Other
   * entries are untouched. The result reports whether this node is now empty. No
   * value is left under `s`, every other key keeps its value, and no dead node appears.
   */
  method Remove<V>(t: Trie<V>, s: seq<Byte>) returns (r: Trie<V>, empty: bool)
    ensures r == Removed(t, s)
    ensures empty <==> IsEmpty(r)
    ensures s == [] ==> r.value == None && r.children == t.children
    ensures s != [] ==> r.value == t.value
    ensures s != [] ==> forall c | c != s[0] && c in t.children :: c in r.children && r.children[c] == t.children[c]
    ensures s != [] ==> forall c | c != s[0] && c in r.children :: c in t.children
    ensures s != [] ==> (s[0] in r.children <==> s[0] in t.children && !IsEmpty(Removed(t.children[s[0]], s[1..])))
    ensures s != [] && s[0] in r.children ==> r.children[s[0]] == Removed(t.children[s[0]], s[1..])
    ensures T.Lookup(r, s) == None && forall k | k != s :: T.Lookup(r, k) == T.Lookup(t, k)
    ensures T.NoDeadNodes(t) ==> T.NoDeadNodes(r)
    decreases |s|
  {
    if s == [] {
      r := T.Trie(None, t.children);
    } else if s[0] in t.children {
      var child, deleteChild := Remove(t.children[s[0]], s[1..]);
      if deleteChild {
        r := T.Trie(t.value, t.children - {s[0]});
      } else {
        r := T.Trie(t.value, t.children[s[0] := child]);
      }
    } else {
      r := t;
    }
    empty := IsEmpty(r);
    forall k ensures T.Lookup(r, k) == if k == s then None else T.Lookup(t, k) {
      RemovedLookup(t, s, k);
    }
    if T.NoDeadNodes(t) {
      RemovedKeepsNoDeadNodes(t, s);
    }
  }
}
