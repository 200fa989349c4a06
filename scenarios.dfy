/**
 * The scenarios of the library's tests (src/lib.rs:233-278), run through the modelled
 * operations: each test is a method whose postcondition is what the test asserts.
 */
module Scenarios {
  import opened Options
  import opened TrieSpec
  import opened Insertion
  import opened Removal
  import opened GenericTrie

  /** The three keys of the test trie hold their values; no other key holds one. */
  ghost predicate StoresTestKeys(t: Trie<char, int>)
  {
    forall k :: Lookup(t, k) == if k == "first" || k == "fibonnaci" then Some(40)
                                else if k == "ab" then Some(20) else None
  }

  /**
   * `build_trie`: "ab" -> 20, "first" -> 40, "fibonnaci" -> 40 inserted into a new trie.
   * The result stores exactly those, has no dead node, and its paths are the prefixes
   * of the three keys.
   */
  method BuildTrie() returns (t: Trie<char, int>)
    ensures StoresTestKeys(t)
    ensures NoDeadNodes(t)
    ensures forall q :: HasPath(t, q) <==> IsPrefix(q, "ab") || IsPrefix(q, "first") || IsPrefix(q, "fibonnaci")
  {
    var t0 := New();
    var t1 := Insert(t0, "ab", 20);
    var t2 := Insert(t1, "first", 40);
    t := Insert(t2, "fibonnaci", 40);
    forall k ensures Lookup(t, k) == if k == "first" || k == "fibonnaci" then Some(40)
                                      else if k == "ab" then Some(20) else None {
      EmptyStoresNothing(t0, k);
      InsertedLookup(t0, "ab", 20, k);
      InsertedLookup(t1, "first", 40, k);
      InsertedLookup(t2, "fibonnaci", 40, k);
    }
    forall q ensures HasPath(t, q) <==> IsPrefix(q, "ab") || IsPrefix(q, "first") || IsPrefix(q, "fibonnaci") {
      EmptyStoresNothing(t0, q);
      InsertedPaths(t0, "ab", 20, q);
      InsertedPaths(t1, "first", 40, q);
      InsertedPaths(t2, "fibonnaci", 40, q);
      if q == [] {
        assert IsPrefix(q, "ab");
      }
    }
    InsertedKeepsNoDeadNodes(t0, "ab", 20);
    InsertedKeepsNoDeadNodes(t1, "first", 40);
    InsertedKeepsNoDeadNodes(t2, "fibonnaci", 40);
  }

  /** `test_contains`: "fi", "a" and "first" are all prefixes present in the test trie. */
  method TestContains() returns (fi: bool, a: bool, first: bool)
    ensures fi && a && first
  {
    var t := BuildTrie();
    assert IsPrefix("fi", "first") && IsPrefix("a", "ab") && IsPrefix("first", "first");
    fi := ContainsPrefix(t, "fi");
    a := ContainsPrefix(t, "a");
    first := ContainsPrefix(t, "first");
  }

  /** `test_raw_insert`: after two raw inserts "fibonn" is a prefix present in the trie. */
  method TestRawInsert() returns (fibonn: bool)
    ensures fibonn
  {
    var t := New();
    t := InsertRaw(t, "first", 40);
    var before := t;
    t := InsertRaw(t, "fibonnaci", 40);
    assert IsPrefix("fibonn", "fibonnaci");
    InsertedPaths(before, "fibonnaci", 40, "fibonn");
    fibonn := ContainsPrefix(t, "fibonn");
  }

  /** A listing with no repeats whose elements are exactly `x` is the one-element listing `[x]`. */
  lemma SingleListing(s: seq<seq<char>>, x: seq<char>)
    requires Distinct(s)
    requires forall y :: y in s <==> y == x
    ensures s == [x]
  {
    assert x in s;
    FirstTwo(s);
  }

  lemma FirstTwo<T>(s: seq<T>)
    ensures |s| > 1 ==> s[0] in s && s[1] in s && (Distinct(s) ==> s[0] != s[1])
  {
  }

  /**
   * `test_list_children`: below "firs" there is only "first"; "abc" and "x" are not
   * paths of the test trie, so nothing is listed for them.
   */
  method TestListChildren() returns (firs: Option<seq<seq<char>>>, abc: Option<seq<seq<char>>>, x: Option<seq<seq<char>>>)
    ensures firs == Some(["first"])
    ensures abc == None && x == None
  {
    var t := BuildTrie();
    forall q ensures q in Below(t, "firs") <==> q == "first" {
      BelowIff(t, "firs", q);
      if |q| > 4 && q[..4] == "firs" {
        assert q[2] == 'r';
        if |q| <= 9 {
          assert "fibonnaci"[..|q|][2] == 'b';
        }
      }
      if q == "first" {
        assert IsPrefix(q, "first");
      }
    }
    firs := ListChildren(t, "firs");
    SingleListing(firs.value, "first");
    assert !IsPrefix("abc", "ab") && !IsPrefix("abc", "first") && !IsPrefix("abc", "fibonnaci");
    abc := ListChildren(t, "abc");
    assert !IsPrefix("x", "ab") && !IsPrefix("x", "first") && !IsPrefix("x", "fibonnaci");
    x := ListChildren(t, "x");
  }

  /** Removing "first" from the test trie leaves the values of "ab" and "fibonnaci" only. */
  lemma RemoveFirstLookups(built: Trie<char, int>, t: Trie<char, int>, e0: Trie<char, int>,
                           e1: Trie<char, int>, expected: Trie<char, int>)
    requires StoresTestKeys(built) && t == Removed(built, "first")
    requires e0 == New() && e1 == Inserted(e0, "ab", 20) && expected == Inserted(e1, "fibonnaci", 40)
    ensures forall k :: Lookup(t, k) == Lookup(expected, k)
  {
    forall k ensures Lookup(t, k) == Lookup(expected, k) {
      RemovedLookup(built, "first", k);
      EmptyStoresNothing(e0, k);
      InsertedLookup(e0, "ab", 20, k);
      InsertedLookup(e1, "fibonnaci", 40, k);
    }
  }

  /** In the trie built from "ab" and "fibonnaci", "fi" and "ab" are paths and "first" is not. */
  lemma ExpectedPaths(e0: Trie<char, int>, e1: Trie<char, int>, expected: Trie<char, int>)
    requires e0 == New() && e1 == Inserted(e0, "ab", 20) && expected == Inserted(e1, "fibonnaci", 40)
    ensures !HasPath(expected, "first") && HasPath(expected, "fi") && HasPath(expected, "ab")
  {
    EmptyStoresNothing(e0, "first");
    InsertedPaths(e0, "ab", 20, "first");
    InsertedPaths(e1, "fibonnaci", 40, "first");
    assert "fibonnaci"[..5][2] == 'b' && "first"[2] == 'r';
    assert IsPrefix("fi", "fibonnaci");
    InsertedPaths(e1, "fibonnaci", 40, "fi");
    assert IsPrefix("ab", "ab");
    InsertedPaths(e0, "ab", 20, "ab");
    InsertedPaths(e1, "fibonnaci", 40, "ab");
  }

  /**
   * `test_remove`: removing "first" from the test trie gives the trie built from "ab"
   * and "fibonnaci" alone. Its branch is pruned, so "first" is no longer a path, while
   * "ab" is, and so is the shared prefix "fi", which "fibonnaci" still runs through.
   */
  method TestRemove() returns (t: Trie<char, int>, expected: Trie<char, int>, first: bool, fi: bool, ab: bool)
    ensures t == expected
    ensures !first && fi && ab
  {
    var built := BuildTrie();
    var nowEmpty;
    t, nowEmpty := Remove(built, "first");
    var e0 := New();
    var e1 := Insert(e0, "ab", 20);
    expected := Insert(e1, "fibonnaci", 40);
    InsertedKeepsNoDeadNodes(e0, "ab", 20);
    InsertedKeepsNoDeadNodes(e1, "fibonnaci", 40);
    RemoveFirstLookups(built, t, e0, e1, expected);
    LiveExtensionality(t, expected);
    ExpectedPaths(e0, e1, expected);
    first := ContainsPrefix(t, "first");
    fi := ContainsPrefix(t, "fi");
    ab := ContainsPrefix(t, "ab");
  }
}
