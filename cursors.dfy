/**
 * A mutable cursor into a trie, as a zipper.
 *
 * Walking down with `&mut` keeps, for every node passed, that node with a hole where
 * the edge just taken leads. `Plug` puts a (possibly changed) node back into the
 * hole and rebuilds the trie up to the root: this is what the caller of an in-place
 * update sees once the borrow ends.
 */
module Cursors {
  import opened Options
  import opened TrieSpec

  /** A node passed on the way down, with a hole at the edge `key`. */
  datatype Frame<K, V> = Frame(value: Option<V>, children: map<K, Trie<K, V>>, key: K)

  /** A position in a trie: the frames from the root down, and the node borrowed there. */
  datatype Cursor<K, V> = Cursor(context: seq<Frame<K, V>>, node: Trie<K, V>)

  function Fill<K, V>(f: Frame<K, V>, n: Trie<K, V>): (r: Trie<K, V>)
    ensures GetNode(r, [f.key]) == Some(n)
  {
    OneStep(Trie(f.value, f.children[f.key := n]), f.key);
    Trie(f.value, f.children[f.key := n])
  }

  /** The whole trie once the node `n` is put back at the bottom of `context`. */
  function Plug<K, V>(context: seq<Frame<K, V>>, n: Trie<K, V>): Trie<K, V>
    decreases |context|
  {
    if context == [] then n
    else Plug(context[..|context| - 1], Fill(context[|context| - 1], n))
  }

  /** The path from the root to the hole. */
  function KeysOf<K, V>(context: seq<Frame<K, V>>): (s: seq<K>)
    ensures |s| == |context|
    ensures forall i :: 0 <= i < |context| ==> s[i] == context[i].key
  {
    seq(|context|, i requires 0 <= i < |context| => context[i].key)
  }

  /** Opening one more frame below the hole and plugging is plugging the filled frame. */
  lemma PlugPush<K, V>(context: seq<Frame<K, V>>, f: Frame<K, V>, n: Trie<K, V>)
    ensures Plug(context + [f], n) == Plug(context, Fill(f, n))
    ensures KeysOf(context + [f]) == KeysOf(context) + [f.key]
  {
    assert (context + [f])[..|context|] == context;
  }

  /** Whatever is put back through a cursor is found at the cursor's path afterwards. */
  lemma {:induction false} PlugPlacesNode<K, V>(context: seq<Frame<K, V>>, n: Trie<K, V>)
    ensures GetNode(Plug(context, n), KeysOf(context)) == Some(n)
    decreases |context|
  {
    if context != [] {
      var init, f := context[..|context| - 1], context[|context| - 1];
      assert context == init + [f];
      PlugPush(init, f, n);
      PlugPlacesNode(init, Fill(f, n));
      GetNodeAppend(Plug(init, Fill(f, n)), KeysOf(init), [f.key]);
    }
  }

  /**
   * Writing through a cursor changes nothing outside the subtree at the cursor's path:
   * every key that does not run through it keeps its value, and every path that does
   * not run through it keeps existing or not.
   */
  lemma {:induction false} PlugLeavesRest<K, V>(context: seq<Frame<K, V>>, n: Trie<K, V>, m: Trie<K, V>, k: seq<K>)
    requires !IsPrefix(KeysOf(context), k)
    ensures Lookup(Plug(context, n), k) == Lookup(Plug(context, m), k)
    ensures HasPath(Plug(context, n), k) <==> HasPath(Plug(context, m), k)
    decreases |context|
  {
    var init, f := context[..|context| - 1], context[|context| - 1];
    assert context == init + [f];
    PlugPush(init, f, n);
    PlugPush(init, f, m);
    var p := KeysOf(init);
    if IsPrefix(p, k) {
      // `k` reaches the filled frame and leaves it by an edge other than the hole.
      var rest := k[|p|..];
      assert k == p + rest;
      PlugPlacesNode(init, Fill(f, n));
      PlugPlacesNode(init, Fill(f, m));
      GetNodeAppend(Plug(init, Fill(f, n)), p, rest);
      GetNodeAppend(Plug(init, Fill(f, m)), p, rest);
      if rest != [] {
        assert k[..|p| + 1] == p + [rest[0]];
        assert GetNode(Fill(f, n), rest) == GetNode(Fill(f, m), rest);
      }
    } else {
      PlugLeavesRest(init, Fill(f, n), Fill(f, m), k);
    }
  }
}
