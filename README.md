# trie-rs: a verified model of the prefix trie

trie-rs is a generic prefix trie. Each node holds an optional value and a hash map
from the next key token to a child node. A key is a sequence of tokens, and the node
at a key is the one reached by following its tokens edge by edge from the root.
Inserting creates the missing nodes along the key and overwrites the value at its
end. `contains_prefix`, `get_node_ref` and `get_node_mut` follow existing edges
only. `list_children` lists every existing path strictly below a prefix. `remove`
recursively clears a value and prunes the child entries that become empty on the
way back up.

The library has two versions of the trie. `src/lib.rs` is generic over the key
token `K`. `src/assoc.rs` is a byte-keyed rewrite behind the `PrefixTrie` trait.

The Dafny model:

- **Node.** `TrieSpec.Trie(value, children)` is the node, with a `map` in place of the `HashMap`.
- **Observations.** `GetNode`, `HasPath`, `Lookup` and `Paths` say what the trie contains. `NoDeadNodes` is the pruning invariant: no node below the root is empty.
- **Reference definitions.** `Insertion.Inserted` and `Removal.Removed` are the references that the insert and remove operations are proved equal to.
- **Owned values.** The trie is an owned value (it derives `Eq` and `Clone` and shares nothing). A `&mut self` operation therefore takes the trie and returns the updated one.
- **Mutable borrows.** A descent through `&mut` borrows is a zipper (`Cursors`): the frames passed on the way down, and `Plug`, which puts a changed node back and rebuilds the trie up to the root. A borrow ends when `Plug` is applied.
- **Raw pointer.** The raw pointer of `insert_raw` is modelled as the address (path from the root) of the node it points at. Writes go through that address.
- **Modules.**
  - `GenericTrie` holds the operations of `src/lib.rs`.
  - `ByteTrie` holds those of `src/assoc.rs`, with keys of type `Byte` (0..255).
  - `Scenarios` replays the library's tests through the modelled operations.

Behaviour of the code worth noting:

- `remove` returns `self.is_empty()`: whether the node is empty after the removal. It does not return the removed value.
- After removing "first" from the trie holding "ab", "first" and "fibonnaci", the prefix "fi" still exists, because "fibonnaci" runs through it (`Scenarios.TestRemove`).
- Removing a key that holds no value is a no-op exactly when no dead node lies along the key. A dead node along the key is pruned; dead nodes elsewhere are never visited (`Removal.RemoveAbsentIsNoop`). A trie without dead nodes has none along any key (`Removal.NoDeadNodesAlong`).

## Model

| member | source | states |
|---|---|---|
| TrieSpec.New | src/lib.rs:77-82 | a new trie is empty (`is_empty`) and stores no value at the root |
| TrieSpec.WithValue | src/lib.rs:83-85 | the result stores `v` at the root |
| TrieSpec.WithValueElsewhere | src/lib.rs:83-85 | `with_value` keeps every path and every value below the root |
| TrieSpec.IsEmpty | src/lib.rs:138-141 | `is_empty` holds iff no value is stored at the node and the root is its only path |
| TrieSpec.EmptyStoresNothing | src/lib.rs:138-141 | an empty node stores no value under any key, and its only path is the empty one |
| TrieSpec.GetNodeAppend | src/lib.rs:142-154 | following `p` then `q` reaches the node that following `p + q` reaches, and fails if `p` fails |
| TrieSpec.InPathsIff | src/lib.rs:126-137 | the set of paths holds exactly the sequences along which every edge exists |
| TrieSpec.PrefixClosed | src/lib.rs:126-137 | the set of paths is prefix-closed, and the empty path always exists |
| TrieSpec.BelowIff | src/lib.rs:168-189 | the paths below `p` are the existing strict extensions of `p` |
| TrieSpec.BelowSplit | src/lib.rs:174-186 | a strict extension of `p` exists iff its next token is a child key of the node at `p`, and it is that child's path or lies below it |
| TrieSpec.LiveNodeStoresValue | src/lib.rs:207-225 | when no node is dead, a non-empty node stores a value somewhere below it |
| TrieSpec.LiveAt | src/lib.rs:207-225 | when no node is dead, every node below the root is non-empty |
| TrieSpec.LivePaths | src/lib.rs:207-225 | when no node is dead, a path exists iff it is the root or a prefix of a key holding a value |
| TrieSpec.Extensionality | src/lib.rs:45-52 | two tries with the same paths and the same stored values are equal (the derived `Eq`) |
| TrieSpec.LiveExtensionality | src/lib.rs:268-278 | two tries without dead nodes that store the same values are equal |
| Cursors.PlugPlacesNode | src/lib.rs:155-167 | a node put back through a borrow is found at the borrow's path afterwards |
| Cursors.PlugLeavesRest | src/lib.rs:155-167 | a write through a borrow changes no value and no path outside the subtree at its path |
| Insertion.EntryOrInsert | src/lib.rs:94 | after `entry(c).or_insert_with(Trie::new)` the entry at `c` exists, holding the old child or a new empty node; the node's value and every other entry are unchanged |
| Insertion.InsertedLookup | src/lib.rs:86-97 | after inserting `s -> v`, `s` holds `v` and every other key keeps its value, so a second insert overwrites |
| Insertion.InsertedPaths | src/lib.rs:86-97 | after inserting `s`, the paths are the old ones plus every prefix of `s` |
| Insertion.InsertedOverwrites | src/lib.rs:86-97 | inserting `s -> v1` then `s -> v2` gives the trie that inserting `s -> v2` alone gives |
| Insertion.InsertedKeepsNoDeadNodes | src/lib.rs:86-97 | insertion creates no dead node and leaves the root non-empty |
| Insertion.Descend | src/lib.rs:103-108 | the closure moves the cursor one token down to `c`; an occupied entry is borrowed unchanged (putting the cursor back gives the same trie), a vacant one receives a new empty node, and putting the cursor back gives the trie with that entry added |
| Insertion.FoldDescendInserts | src/lib.rs:100-110 | folding the entry step over the key, then setting the value, is inserting the key |
| Insertion.EnsureChildAt | src/lib.rs:119 | through the raw address `p`, the entry at `c` exists afterwards one token below `p`, holding the old child or a new empty node; an occupied entry leaves the trie unchanged |
| Insertion.EnsureChildKeepsInsert | src/lib.rs:116-124 | creating the next child through the raw address keeps that address valid and does not change the final insert result |
| Insertion.SetValueAt | src/lib.rs:124 | the node at the address holds the new value afterwards and keeps its children |
| Insertion.SetValueAtIsInsert | src/lib.rs:124 | once the whole path exists, writing the value through its address is inserting |
| Removal.RemovedLookup | src/lib.rs:207-225 | after `remove(s)`, no value is stored at `s` and every other key keeps its value |
| Removal.RemovedPathsShrink | src/lib.rs:207-225 | removal never creates a path |
| Removal.RemovedKeepsNoDeadNodes | src/lib.rs:207-225 | removal leaves no dead node below the root when there was none before |
| Removal.RemovedPaths | src/lib.rs:207-225 | with no dead nodes, a path survives `remove(s)` iff it is the root or leads to a value under a key other than `s` (pruning is exact) |
| Removal.RemoveAbsentIsNoop | src/lib.rs:207-225 | removing a key that holds no value leaves the trie unchanged iff no dead node lies along the key (a dead node there is pruned) |
| Removal.NoDeadNodesAlong | src/lib.rs:207-225 | a trie without dead nodes has no dead node along any key, so removing an absent key from it changes nothing |
| Removal.RemoveUndoesInsert | src/lib.rs:207-225 | with no dead nodes, inserting a key that held no value and then removing it restores the trie |
| GenericTrie.Insert | src/lib.rs:86-97 | the loop gives the reference insertion: `s` holds `v`, and every prefix of `s` is a path |
| GenericTrie.InsertFold | src/lib.rs:98-110 | the fold gives the same trie as `insert` |
| GenericTrie.InsertRaw | src/lib.rs:111-125 | the raw-pointer descent gives the same trie as `insert` |
| GenericTrie.ContainsPrefix | src/lib.rs:126-137 | true iff every token of `s` in turn follows an existing edge, i.e. `s` is in the set of paths |
| GenericTrie.GetNodeRef | src/lib.rs:142-154 | returns the node at `s`, and is `Some` exactly when `contains_prefix(s)` holds |
| GenericTrie.GetNodeMut | src/lib.rs:155-167 | succeeds exactly when `get_node_ref` does; the borrow is at path `s`, holds the node at `s`, and gives back the unchanged trie when nothing is written |
| GenericTrie.ListChildren | src/lib.rs:168-189 | `None` iff `p` is not a path; otherwise lists every existing strict extension of `p` exactly once and nothing else |
| GenericTrie.ListedUnderChild | src/lib.rs:175-183 | `p + [k]` and every path listed for it lie below `p` and pass through the child at `k` |
| GenericTrie.ListChildrenStep | src/lib.rs:179-185 | appending the listing for `p + [k]` and then `p + [k]` keeps the listing duplicate-free and complete for all keys handled so far |
| GenericTrie.StepCovers | src/lib.rs:179-185 | after key `k` is handled, every path below `p` whose next token has been handled is listed |
| GenericTrie.StepDistinct | src/lib.rs:179-185 | the paths under `k` and `p + [k]` repeat nothing listed before |
| GenericTrie.Remove | src/lib.rs:207-225 | gives the reference removal: no value at `s`, other keys unchanged, no dead node introduced; the result is `is_empty()` of the node afterwards |
| ByteTrie.New | src/assoc.rs:26-31 | a new trie is empty, stores no value and has only the root path |
| ByteTrie.IsEmpty | src/assoc.rs:52-54 | true iff no value is stored at the node and the root is its only path |
| ByteTrie.Insert | src/assoc.rs:32-41 | the key's path exists and holds `v`, replacing an earlier value; every other key keeps its value |
| ByteTrie.InsertFold | src/assoc.rs:42-51 | gives the same trie as `insert`, with the same stored values |
| ByteTrie.ContainsPrefix | src/assoc.rs:55-64 | true iff each byte in turn leaves the node reached so far by an existing edge, which is iff the path exists; true for no bytes |
| ByteTrie.Remove | src/assoc.rs:65-82 | with no bytes, clears the value and keeps the children. Otherwise the first byte's entry is deleted iff the recursive removal leaves that child empty, and every other entry is untouched. No value is left under `s`, every other key keeps its value, and no dead node appears. Returns `is_empty()` of the node afterwards |
| Scenarios.BuildTrie | src/lib.rs:233-239 | the test trie stores exactly "ab" -> 20, "first" -> 40 and "fibonnaci" -> 40, has no dead node, and its paths are the prefixes of those keys |
| Scenarios.TestContains | src/lib.rs:240-248 | "fi", "a" and "first" are prefixes in the test trie |
| Scenarios.TestRawInsert | src/lib.rs:249-255 | after raw inserts of "first" and "fibonnaci", "fibonn" is a prefix |
| Scenarios.TestListChildren | src/lib.rs:256-267 | `list_children("firs")` is `Some(["first"])`; "abc" and "x" give `None` |
| Scenarios.RemoveFirstLookups | src/lib.rs:268-278 | after removing "first", the stored values are those of the trie built from "ab" and "fibonnaci" |
| Scenarios.ExpectedPaths | src/lib.rs:273-276 | in the trie built from "ab" and "fibonnaci", "fi" and "ab" are paths and "first" is not |
| Scenarios.TestRemove | src/lib.rs:268-278 | removing "first" gives the trie built from "ab" and "fibonnaci"; "first" is then no longer a prefix, but "fi" and "ab" are |

## Left out

- `TrieIterator` (src/lib.rs:54-71): `next` is `unimplemented!()`. No enumeration of (key, value) pairs exists to model.
- GenericTrie.ListChildren: the order in which `HashMap::keys` yields sibling keys is unspecified. The model lets the loop pick any remaining key, and its contract states the listed set and the absence of duplicates, not an order.
- In-place update and aliasing: the trie is a value, and `&mut` borrows are zippers. The raw pointer of `insert_raw` is an address. Pointer identity and `unsafe` aliasing are not modelled, only their effect on the trie.
- Generics and adapters: the `Key`/`Value` trait bounds (src/lib.rs:38-43), lifetimes, and `IntoIterator`/`Into<Vec<u8>>` conversions are left out. Keys are sequences.
- The `PrefixTrie` trait dispatch and crate wiring of `src/assoc.rs` are left out. The file is not declared as a module and lacks its imports. Its recursive `remove` passes an iterator where `Into<Vec<u8>>` is required. Its algorithm is modelled as written.
- Test and benchmark scaffolding is left out: debug printing (src/lib.rs:243), the benchmarks (src/lib.rs:279-311), the commented-out `feature(test)` lines and the commented-out older `remove` (src/lib.rs:1-3, 190-206).
- Memory allocation failure is left out. `HashMap` hashing and capacity are left out.
