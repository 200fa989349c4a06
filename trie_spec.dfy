/**
 * The trie node and the observations every operation is specified against.
 *
 * A node holds an optional value and a map from the next key token to the child
 * node reached by it. A key is a sequence of tokens; the node "at" a key is the one
 * reached by following its tokens one child edge at a time from the root.
 */
module TrieSpec {
  import opened Options

  datatype Trie<K, V> = Trie(value: Option<V>, children: map<K, Trie<K, V>>)

  /** `Trie::new`: a node with no value and no children. */
  function New<K, V>(): (r: Trie<K, V>)
    ensures IsEmpty(r) && Lookup(r, []) == None
  {
    Trie(None, map[])
  }

  /** `Trie::with_value`: the same node with its own value replaced by `v`. */
  function WithValue<K, V>(t: Trie<K, V>, v: Option<V>): (r: Trie<K, V>)
    ensures Lookup(r, []) == v
  {
    Trie(v, t.children)
  }

  /**
   * `Trie::is_empty`, the dead-node test: no value is stored at the node itself and
   * the root is its only path, so nothing at all is stored below it either.
   */
  function IsEmpty<K, V>(t: Trie<K, V>): (b: bool)
    ensures b <==> Lookup(t, []) == None && Paths(t) == {[]}
  {
    OnlyRootPath(t);
    t.value.None? && t.children == map[]
  }

  /** The node reached from `t` by following the tokens of `s`, if every edge exists. */
  ghost function GetNode<K, V>(t: Trie<K, V>, s: seq<K>): Option<Trie<K, V>>
    decreases |s|
  {
    if s == [] then Some(t)
    else if s[0] in t.children then GetNode(t.children[s[0]], s[1..])
    else None
  }

  /** `s` denotes a path that exists in `t`, whether or not a value sits at its end. */
  ghost predicate HasPath<K, V>(t: Trie<K, V>, s: seq<K>)
  {
    GetNode(t, s).Some?
  }

  /** The node at an existing path `s`. */
  ghost function NodeAt<K, V>(t: Trie<K, V>, s: seq<K>): Trie<K, V>
    requires HasPath(t, s)
  {
    match GetNode(t, s)
    case Some(n) => n
  }

  /** The value stored under exactly the key `s`. */
  ghost function Lookup<K, V>(t: Trie<K, V>, s: seq<K>): Option<V>
  {
    match GetNode(t, s)
    case Some(n) => n.value
    case None => None
  }

  /** The finite set of all paths of `t`, built edge by edge from the root. */
  ghost function Paths<K, V>(t: Trie<K, V>): set<seq<K>>
  {
    {[]} + set c, p | c in t.children && p in Paths(t.children[c]) :: [c] + p
  }

  ghost predicate IsPrefix<K>(p: seq<K>, s: seq<K>)
  {
    |p| <= |s| && s[..|p|] == p
  }

  /** The paths of `t` that extend `p` by at least one token. */
  ghost function Below<K, V>(t: Trie<K, V>, p: seq<K>): set<seq<K>>
  {
    set q | q in Paths(t) && |p| < |q| && q[..|p|] == p
  }

  ghost predicate Distinct<T>(s: seq<T>)
  {
    forall i, j :: 0 <= i < j < |s| ==> s[i] != s[j]
  }

  lemma DistinctAppend<T>(a: seq<T>, b: seq<T>)
    requires Distinct(a) && Distinct(b)
    requires forall x :: x in a ==> x !in b
    ensures Distinct(a + b)
  {
    forall i, j | 0 <= i < j < |a + b| ensures (a + b)[i] != (a + b)[j] {
      if i < |a| && |a| <= j {
        assert (a + b)[i] in a && (a + b)[j] in b;
      }
    }
  }

  /** The pruning invariant: no node below the root is dead. */
  ghost predicate NoDeadNodes<K, V>(t: Trie<K, V>)
  {
    forall c :: c in t.children ==> !IsEmpty(t.children[c]) && NoDeadNodes(t.children[c])
  }

  // ---------------------------------------------------------------------------
  // Paths

  /** Following `p` and then `q` is following `p + q`. */
  lemma {:induction false} GetNodeAppend<K, V>(t: Trie<K, V>, p: seq<K>, q: seq<K>)
    ensures GetNode(t, p + q) == match GetNode(t, p)
                                 case Some(n) => GetNode(n, q)
                                 case None => None
    decreases |p|
  {
    if p != [] {
      assert (p + q)[0] == p[0] && (p + q)[1..] == p[1..] + q;
      if p[0] in t.children {
        GetNodeAppend(t.children[p[0]], p[1..], q);
      }
    } else {
      assert p + q == q;
    }
  }

  /** A single edge: the node one token below `t`. */
  lemma OneStep<K, V>(t: Trie<K, V>, c: K)
    ensures GetNode(t, [c]) == if c in t.children then Some(t.children[c]) else None
  {
    assert [c][1..] == [];
  }

  /** The set `Paths` holds exactly the sequences along which `GetNode` succeeds. */
  lemma {:induction false} InPathsIff<K, V>(t: Trie<K, V>, s: seq<K>)
    ensures s in Paths(t) <==> HasPath(t, s)
    decreases |s|
  {
    if s != [] {
      var c, rest := s[0], s[1..];
      assert s == [c] + rest;
      if c in t.children {
        InPathsIff(t.children[c], rest);
        if HasPath(t, s) {
          assert rest in Paths(t.children[c]);
        }
      }
      if s in Paths(t) {
        var c', p' :| c' in t.children && p' in Paths(t.children[c']) && s == [c'] + p';
        assert c' == c && p' == rest;
      }
    }
  }

  /** Existing paths are prefix-closed, and the empty path always exists. */
  lemma {:induction false} PrefixClosed<K, V>(t: Trie<K, V>, p: seq<K>, s: seq<K>)
    requires IsPrefix(p, s)
    ensures HasPath(t, s) ==> HasPath(t, p)
    ensures HasPath(t, [])
  {
    assert s == p + s[|p|..];
    GetNodeAppend(t, p, s[|p|..]);
  }

  /** `Below` is the set of existing strict extensions of `p`. */
  lemma BelowIff<K, V>(t: Trie<K, V>, p: seq<K>, q: seq<K>)
    ensures q in Below(t, p) <==> HasPath(t, q) && |p| < |q| && q[..|p|] == p
  {
    InPathsIff(t, q);
  }

  /**
   * A strict extension of an existing path `p` exists exactly when its next token
   * leaves the node at `p` and the rest is the child itself or lies below it.
   */
  lemma {:induction false} BelowSplit<K, V>(t: Trie<K, V>, p: seq<K>, node: Trie<K, V>, q: seq<K>)
    requires GetNode(t, p) == Some(node)
    requires |p| < |q| && q[..|p|] == p
    ensures q in Below(t, p) <==>
              q[|p|] in node.children && (q == p + [q[|p|]] || q in Below(t, p + [q[|p|]]))
  {
    var c := q[|p|];
    var item := p + [c];
    BelowIff(t, p, q);
    BelowIff(t, item, q);
    assert q == p + q[|p|..];
    GetNodeAppend(t, p, q[|p|..]);
    GetNodeAppend(t, p, [c]);
    assert q[|p|..][0] == c;
    if c in node.children {
      assert q == item + q[|item|..];
      GetNodeAppend(t, item, q[|item|..]);
      GetNodeAppend(node, [c], q[|item|..]);
      assert [c] + q[|item|..] == q[|p|..];
      if q != item {
        assert |item| < |q| && q[..|item|] == item;
      }
    }
  }

  // ---------------------------------------------------------------------------
  // Empty nodes and the pruning invariant

  /** A node has no path but the root exactly when it has no child. */
  lemma OnlyRootPath<K, V>(t: Trie<K, V>)
    ensures Paths(t) == {[]} <==> t.children == map[]
  {
    if t.children != map[] {
      var c :| c in t.children;
      assert [] in Paths(t.children[c]);
      assert [c] + [] in Paths(t);
    }
  }

  /** `with_value` changes the value at the node itself and nothing else. */
  lemma WithValueElsewhere<K, V>(t: Trie<K, V>, v: Option<V>, q: seq<K>)
    ensures HasPath(WithValue(t, v), q) <==> HasPath(t, q)
    ensures q != [] ==> Lookup(WithValue(t, v), q) == Lookup(t, q)
  {
  }

  lemma EmptyStoresNothing<K, V>(t: Trie<K, V>, q: seq<K>)
    requires IsEmpty(t)
    ensures Lookup(t, q) == None && (HasPath(t, q) <==> q == [])
  {
  }

  /** A live node below the root stores a value somewhere in its subtree. */
  lemma {:induction false} LiveNodeStoresValue<K, V>(n: Trie<K, V>)
    requires NoDeadNodes(n) && !IsEmpty(n)
    ensures exists k :: Lookup(n, k).Some?
  {
    if n.value.Some? {
      assert Lookup(n, []).Some?;
    } else {
      var c :| c in n.children;
      LiveNodeStoresValue(n.children[c]);
      var k :| Lookup(n.children[c], k).Some?;
      assert ([c] + k)[0] == c && ([c] + k)[1..] == k;
      assert Lookup(n, [c] + k).Some?;
    }
  }

  /** Every node below the root of a trie without dead nodes is itself live and non-empty. */
  lemma {:induction false} LiveAt<K, V>(t: Trie<K, V>, q: seq<K>)
    requires NoDeadNodes(t) && q != [] && HasPath(t, q)
    ensures NoDeadNodes(NodeAt(t, q)) && !IsEmpty(NodeAt(t, q))
    decreases |q|
  {
    var child := t.children[q[0]];
    if q[1..] != [] {
      LiveAt(child, q[1..]);
    }
  }

  /**
   * Without dead nodes, the existing paths are the root and the prefixes of the keys
   * that hold a value: nothing else is kept.
   */
  lemma LivePaths<K, V>(t: Trie<K, V>, q: seq<K>)
    requires NoDeadNodes(t)
    ensures HasPath(t, q) <==> q == [] || exists k :: Lookup(t, k).Some? && IsPrefix(q, k)
  {
    if q != [] && HasPath(t, q) {
      var n := NodeAt(t, q);
      LiveAt(t, q);
      LiveNodeStoresValue(n);
      var k' :| Lookup(n, k').Some?;
      GetNodeAppend(t, q, k');
      assert (q + k')[..|q|] == q;
      assert Lookup(t, q + k').Some? && IsPrefix(q, q + k');
    }
    if exists k :: Lookup(t, k).Some? && IsPrefix(q, k) {
      var k :| Lookup(t, k).Some? && IsPrefix(q, k);
      PrefixClosed(t, q, k);
    }
  }

  /** A trie is determined by its paths together with the values stored along them. */
  lemma {:induction false} Extensionality<K, V>(a: Trie<K, V>, b: Trie<K, V>)
    requires forall q :: HasPath(a, q) <==> HasPath(b, q)
    requires forall k :: Lookup(a, k) == Lookup(b, k)
    ensures a == b
    decreases a
  {
    assert a.value == Lookup(a, []) == Lookup(b, []) == b.value;
    forall c ensures c in a.children <==> c in b.children {
      OneStep(a, c);
      OneStep(b, c);
      assert HasPath(a, [c]) <==> HasPath(b, [c]);
    }
    forall c | c in a.children ensures a.children[c] == b.children[c] {
      var x, y := a.children[c], b.children[c];
      forall q ensures GetNode(a, [c] + q) == GetNode(x, q) && GetNode(b, [c] + q) == GetNode(y, q) {
        assert ([c] + q)[0] == c && ([c] + q)[1..] == q;
      }
      forall q ensures HasPath(x, q) <==> HasPath(y, q) {
        assert HasPath(a, [c] + q) <==> HasPath(b, [c] + q);
      }
      forall k ensures Lookup(x, k) == Lookup(y, k) {
        assert Lookup(a, [c] + k) == Lookup(b, [c] + k);
      }
      Extensionality(x, y);
    }
    assert a.children == b.children;
  }

  /** Two tries without dead nodes that store the same values are the same trie. */
  lemma LiveExtensionality<K, V>(a: Trie<K, V>, b: Trie<K, V>)
    requires NoDeadNodes(a) && NoDeadNodes(b)
    requires forall k :: Lookup(a, k) == Lookup(b, k)
    ensures a == b
  {
    forall q ensures HasPath(a, q) <==> HasPath(b, q) {
      LivePaths(a, q);
      LivePaths(b, q);
    }
    Extensionality(a, b);
  }
}
