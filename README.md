# A verified model of the DNA prefix trie

`Trie.java` is a map from DNA strings to string values. A key is a string over the bases A, C, G
and T. The map is stored in a prefix tree of nodes. Each node has four child slots, one per base,
an optional value and a link to its parent. The class offers `get`, `put` and `remove`, counts
and lists the keys below a prefix, and computes two statistics over all stored keys.

This project models that class in Dafny and proves what each operation does to the map it
represents.

- `Wrappers` (`wrappers.dfy`): `Option` and `Result`.
- `Alphabet` (`alphabet.dfy`): the bases, `isValidKey`, and the two `index` mappings between a
  base and its slot number.
- `KeyWalk` (`key_walk.dfy`): the pure specification, over a `Store` (a `map<string, string>`
  from keys to values).
  - `Walk` lists the stored keys below a prefix in the order the tree's recursions visit them:
    the prefix itself first, then the subtrees of A, C, G and T.
  - `ValuesOf`, `FirstWith`, `KeysFor` and `Reconstruct` describe the value-based key listing
    of `getKeysMatchingPrefix`.
  - `NonEmptyPrefixes` and `SetSumLengths` describe the two statistics.
- `PrefixTrie` (`trie.dfy`): the classes `Node` and `Trie`.
  - A `Node` has a `children` array of length 4, a `value: Option<string>` and a `parent`.
  - A `Trie` has the `size` counter and the `root` node. Its ghost state is:
    - `Contents`, the map it represents;
    - `Nodes`, every node of the tree under the key that spells its path;
    - `Owner`, the inverse of `Nodes`;
    - `Height`, a bound on the depth.
  - `Valid` ties that state to the heap: slots and parent links, values against `Contents`,
    `size == |Contents|`, and no node except the root without both a value and a child.
  - `get`, `put` and `remove` are methods that keep `Valid` and state the new `Contents`.
  - `remove`'s upward pruning loop is the method `Prune`.
- `TrieQueries` (`queries.dfy`): the prefix queries.
  - They are methods that take the trie and walk its nodes with the source's recursions.
  - Each is proved against `Walk` over `Contents`.
- `TrieStatistics` (`statistics.dfy`): `countPrefixes` and `sumKeyLengths`, with their loops.
- `ByValueFinding` (`findings.dfy`): the defect in the value-based key listing (see Findings).

A malformed key makes the source throw before anything changes. Here it gives
`Failure(MalformedKey)` and leaves the trie as it was. A `null` result of the source is `None`.

## Model

| member | source | states |
|---|---|---|
| `Alphabet.IsValidKey` | Trie.java:466-473 | a key is valid exactly when each of its characters is A, C, G or T |
| `Alphabet.Index` | Trie.java:475-486 | a character has a slot exactly when it is a base; the slot is in 0..3 and names that base |
| `Alphabet.Symbol` | Trie.java:488-498 | a slot number has a symbol exactly when it is in 0..3; the symbol is one base whose slot is that number |
| `Alphabet.IndexSymbolInverse` | Trie.java:475-498 | `index(char)` and `index(int)` are inverse: c has slot i exactly when slot i has symbol c |
| `KeyWalk.RemoveAbsent` | Trie.java:200-207 | removing a key that is not stored leaves the map unchanged |
| `KeyWalk.WalkBounds` | Trie.java:275-297 | every key the recursive walk lists extends the prefix and is no longer than the depth bound |
| `KeyWalk.WalkEmpty` | Trie.java:277-279 | when no stored key extends the prefix, the walk lists nothing |
| `KeyWalk.WalkComplete` | Trie.java:275-297 | every stored key that extends the prefix is listed by the walk |
| `KeyWalk.WalkDistinct` | Trie.java:275-297 | the walk lists no key twice |
| `KeyWalk.WalkIsKeysWithPrefix` | Trie.java:275-297 | the walk lists exactly the stored keys that extend the prefix, each once, so its length is their number |
| `KeyWalk.PrefixCountMonotone` | Trie.java:246-297 | the keys below a longer prefix are among the keys below its shorter prefix, so the count for the longer prefix is never larger |
| `KeyWalk.DistinctCard` | Trie.java:439-442 | counting a list without repetitions gives the size of its set |
| `KeyWalk.ValuesOfIndex` | Trie.java:351-368 | the j-th collected value is the value of the j-th walked key |
| `KeyWalk.ValuesOfAppend` | Trie.java:364-366 | the values of two walks in a row are the values of the first, then those of the second |
| `KeyWalk.FirstWith` | Trie.java:370-390 | if some walked key holds the value, the result is such a key; otherwise it is the default |
| `KeyWalk.FirstWithIsFirst` | Trie.java:373-387 | the key found for a value is the first walked key that holds it |
| `KeyWalk.FirstWithAppend` | Trie.java:378-389 | over two walks in a row, the search takes the first walk when it holds the value, else the second |
| `KeyWalk.FirstWithFallback` | Trie.java:370-390 | when the value occurs, the key found does not depend on the default |
| `KeyWalk.KeysForIndex` | Trie.java:336-341 | the t-th listed key is the first walked key holding the t-th value |
| `KeyWalk.ReconstructIndex` | Trie.java:336-341 | rebuilding keys from values gives one key per walked key, the first one holding the same value |
| `KeyWalk.ReconstructDistinctValues` | Trie.java:299-344 | when the values below the prefix are pairwise different, rebuilding the keys from the values gives back the walk exactly |
| `KeyWalk.SharedValueLosesKey` | Trie.java:299-344 | when two walked keys share a value, the later one is missing from the rebuilt list, so the list differs from the walk |
| `KeyWalk.FirstIndexWith` | Trie.java:373-387 | a value held by some walked key is held by a first one |
| `KeyWalk.SetSumLengthsRemove` | Trie.java:455-457 | the total key length is one key's length plus the total of the others, whichever key is taken out |
| `KeyWalk.SumLengthsDistinct` | Trie.java:455-457 | summing the lengths of a list without repetitions gives the total length of its set |
| `PrefixTrie.NewLeaf` | Trie.java:168-169 | a new node has four empty slots and no value, and its parent is the given node |
| `PrefixTrie.Unhook` | Trie.java:234-236 | the child's parent link and the parent's slot i are both cleared; the other slots keep their nodes |
| `PrefixTrie.Node.constructor` | Trie.java:17-19 | a new node has no parent, no value and a fresh array of four empty slots |
| `PrefixTrie.Trie.HasValueStored` | Trie.java:60-65 | `hasValue` on the node at a key is true exactly when the key is stored, and the node's value is then the stored one |
| `PrefixTrie.Node.HasChildren` | Trie.java:72-79 | the answer is true exactly when some slot is filled |
| `PrefixTrie.Node.SetChild` | Trie.java:67-70 | the slot of base c gets the node, no other slot changes, and the node is handed back |
| `PrefixTrie.Node.Graft` | Trie.java:168-170 | a new leaf hangs from this node in the slot of c, with its parent link set; no other slot changes |
| `PrefixTrie.Node.SetChildAt` | Trie.java:52-54 | slot i gets the node and no other slot changes |
| `PrefixTrie.Trie.constructor` | Trie.java:84-86 | a new trie is valid and represents the empty map |
| `PrefixTrie.Trie.Planted` | Trie.java:84-86 | a lone root with no value and empty slots, and size 0, satisfy the invariant |
| `PrefixTrie.Trie.PrefixInNodes` | Trie.java:161-172 | every prefix of a node's key has a node too, since nodes are only made one step below an existing node |
| `PrefixTrie.Trie.NodeKeyValid` | Trie.java:161-172 | every node's key is a valid key |
| `PrefixTrie.Trie.ContentsValid` | Trie.java:140-142 | every stored key is a valid key |
| `PrefixTrie.Trie.KeysBelowNode` | Trie.java:119-127 | every stored key that extends k has its node, so the path of k exists |
| `PrefixTrie.Trie.AbsentBelow` | Trie.java:122-126 | when the path of k is missing, no stored key extends k, and the walk below k is empty |
| `PrefixTrie.Trie.Size` | Trie.java:88-91 | the result is the number of stored keys |
| `PrefixTrie.Trie.IsEmpty` | Trie.java:93-99 | the result is true exactly when no key is stored |
| `PrefixTrie.Trie.Find` | Trie.java:119-127 | following one slot per character from the root reaches the node of the key, or null when a slot on the path is empty |
| `PrefixTrie.Trie.Get` | Trie.java:105-131 | a valid key gives its stored value, or none when it is absent; a malformed key gives an error |
| `PrefixTrie.Trie.ChildAdded` | Trie.java:168-170 | hanging a fresh empty leaf under the node at k keeps the invariant, with only the new leaf allowed to be dead |
| `PrefixTrie.Trie.Stored` | Trie.java:174-184 | writing v into the node at k, with the map updated at k and the count adjusted, restores the full invariant |
| `PrefixTrie.Trie.Respare` | Trie.java:231 | a node that holds a value or a child is not dead, so the exemption can move to another key |
| `PrefixTrie.Trie.Extend` | Trie.java:168-170 | a fresh leaf with a fresh array of empty slots is added at k + c, and only it may be dead; the map and the count are unchanged |
| `PrefixTrie.Trie.Assign` | Trie.java:174-184 | the value is stored at k and the old value handed back; the count grows only when k was absent |
| `PrefixTrie.Trie.Replace` | Trie.java:174-179 | on a stored key, the new value replaces the old one, which is handed back; the count is unchanged |
| `PrefixTrie.Trie.Insert` | Trie.java:181-184 | on an absent key, the value is stored and the count grows by one |
| `PrefixTrie.Trie.Descend` | Trie.java:158-172 | after the walk, the key has a node; it is an existing node or a fresh one, and only it may be dead; every object the walk adds to the tree is fresh, and the map and the count are unchanged |
| `PrefixTrie.Trie.ReprAdded` | Trie.java:168-170 | adding one node at a new key adds only that node and its slot array to the objects of the tree |
| `PrefixTrie.Trie.FreshGrown` | Trie.java:158-172 | objects that were already new, with one fresh node and its fresh slot array, are all new |
| `PrefixTrie.Trie.Put` | Trie.java:133-185 | a valid key maps to the new value and every other key keeps its value; the old value is returned; size grows exactly when the key was absent; a malformed key gives an error and changes nothing; every object the put adds to the tree is fresh |
| `PrefixTrie.Trie.Cleared` | Trie.java:218-225 | clearing the value at k, with k dropped from the map and the count lowered, keeps the invariant, except that the node at k may be dead |
| `PrefixTrie.Trie.Unset` | Trie.java:220-225 | the value at k is cleared, k leaves the map and size drops by one |
| `PrefixTrie.Trie.Detached` | Trie.java:231-238 | unhooking the dead leaf at p + c keeps the invariant, and only its parent at p may be dead now |
| `PrefixTrie.Trie.ParentsCleared` | Trie.java:233-234 | once the leaf just unhooked has no parent, every node that has left the tree so far has no parent |
| `PrefixTrie.Trie.Detach` | Trie.java:232-237 | the dead leaf leaves the tree, its parent link is null, the parent's slot is cleared, and the parent is handed back; every node that left the tree earlier still has no parent |
| `PrefixTrie.Trie.Climb` | Trie.java:230-238 | one turn of the walk up: the dead node at the first index + 1 characters of the key leaves the tree with its parent link cleared, and the invariant holds with its parent as the only node that may be dead |
| `PrefixTrie.Trie.Prune` | Trie.java:229-240 | the walk up detaches only dead nodes, each with its parent link cleared, stops at the first node with a value or child, never detaches the root, and restores the full invariant; the tree keeps only some of its objects |
| `PrefixTrie.Trie.ReprShrunk` | Trie.java:229-240 | when every remaining node is still at its old key, the objects of the tree are a subset of the old ones |
| `PrefixTrie.Trie.Erase` | Trie.java:218-242 | k leaves the map, size drops by one, and the invariant holds again after pruning; the tree keeps only some of its objects |
| `PrefixTrie.Trie.Remove` | Trie.java:187-244 | a valid key leaves the map and every other key keeps its value; the old value is returned; size drops exactly when the key was stored, so a second remove is a no-op; a malformed key gives an error and changes nothing; the tree keeps only some of its objects |
| `TrieQueries.ValuesIn` | Trie.java:399-408 | a value occurs in two walks in a row exactly when it occurs in one of them |
| `TrieQueries.WalkChildrenStep` | Trie.java:289-293 | walking one more child slot appends that child's walk |
| `TrieQueries.FirstWithStable` | Trie.java:378-388 | once a value is found in an earlier child, the later children do not change the key found |
| `TrieQueries.FirstWithInChild` | Trie.java:378-385 | when the node and the earlier children lack the value and child i has it, the key found below the node is the key found below child i |
| `TrieQueries.WalkAll` | Trie.java:275-297 | in a valid trie, the walk below k lists each stored key that extends k once; from the empty prefix, these are all stored keys |
| `TrieQueries.Absent` | Trie.java:261-268 | a prefix without a node has no key below it |
| `TrieQueries.NodeFacts` | Trie.java:289-293 | a node's slots hold the nodes of its one-base extensions, and its value is the key's stored value |
| `TrieQueries.ChildWalk` | Trie.java:289-293 | slot i holds the node of k + base i; an empty slot means nothing is stored below it; the walk grows by that child's walk |
| `TrieQueries.CountBelow` | Trie.java:274-297 | the recursive count is the number of keys the walk lists below the node |
| `TrieQueries.CountKeysMatchingPrefix` | Trie.java:246-272 | a valid prefix gives the number of stored keys that extend it, which is 0 when its path is missing; a malformed prefix gives an error |
| `TrieQueries.CollectValues` | Trie.java:350-368 | the list gets the values of the keys below the node appended, in walk order |
| `TrieQueries.SearchPathInvalid` | Trie.java:392-410 | the result is true exactly when no key at or below the node holds the value |
| `TrieQueries.SearchSlot` | Trie.java:404-408 | an empty slot leaves the flag alone; a filled one clears it when the child's subtree holds the value |
| `TrieQueries.GetSingleKeyMatchingPrefix` | Trie.java:370-390 | the result is the first walked key below the node that holds the value, or the node's own key if none does |
| `TrieQueries.KeysForValues` | Trie.java:335-342 | for each value in turn, the list gets the first walked key below the prefix that holds it |
| `TrieQueries.GetKeysMatchingPrefixByValue` | Trie.java:299-344 | as written: the listing rebuilds each walked key from its value; a malformed prefix gives an error |
| `TrieQueries.CollectKeys` | Trie.java:350-368 | the list gets the keys below the node appended, in walk order |
| `TrieQueries.GetKeysMatchingPrefix` | Trie.java:299-344 | corrected: a valid prefix gives exactly the stored keys that extend it, each once (empty when its path is missing); a malformed prefix gives an error |
| `TrieStatistics.LeadingPrefixesStep` | Trie.java:428-429 | one more character of a key gives one more prefix |
| `TrieStatistics.NonEmptyPrefixesAdd` | Trie.java:425-436 | the prefixes of one more key join the prefixes gathered so far |
| `TrieStatistics.AllKeys` | Trie.java:416 | the list of all keys holds each stored key once |
| `TrieStatistics.AddPrefixes` | Trie.java:428-435 | the found list gets each prefix of the key that it lacks, and stays without repetitions |
| `TrieStatistics.GatherPrefixes` | Trie.java:425-436 | the found list holds each non-empty prefix of the listed keys exactly once |
| `TrieStatistics.CountPrefixes` | Trie.java:412-444 | the result is the number of distinct non-empty prefixes of the stored keys |
| `TrieStatistics.SumLengthsStep` | Trie.java:455-457 | adding the next key adds its length to the total |
| `TrieStatistics.SumKeyLengths` | Trie.java:446-460 | the result is the total length of the stored keys |
| `TrieStatistics.CountAllIsSize` | Trie.java:246-272 | the count of keys below the empty prefix equals size |
| `TrieStatistics.EmptyStatistics` | Trie.java:412-460 | in a trie with no key, both statistics are 0 |
| `TrieStatistics.PrefixesOfPair` | Trie.java:425-436 | two keys of length 4 have as prefixes the four leading prefixes of each |
| `TrieStatistics.CountPrefixesExample` | Trie.java:412-444 | the keys AAAA and AATA have six distinct non-empty prefixes |
| `TrieStatistics.SumKeyLengthsExample` | Trie.java:446-460 | the keys AA, AACT, TCAG have total length 10, and AAA, AAAA have 7 |
| `ByValueFinding.SharedValueMissesKey` | Trie.java:299-344 | when two stored keys below the prefix share a value, the as-written listing misses one of them |
| `ByValueFinding.WalkLeaf` | Trie.java:275-297 | a stored key that no other stored key extends is listed alone by the walk from it |
| `ByValueFinding.WalkOnly` | Trie.java:288-294 | when all stored keys below a node other than its own lie below one child, the walk is the node's own key, then that child's walk |
| `ByValueFinding.ExampleWalk` | Trie.java:275-297 | for AA→1, AACT→2, TCAG→2, the walk from the root lists AA, AACT, TCAG in that order |
| `ByValueFinding.ByValueCounterexample` | Trie.java:299-344 | for AA→1, AACT→2, TCAG→2, the walk lists AA, AACT, TCAG and the as-written listing gives AA, AACT, AACT: TCAG is missing and AACT comes twice |

## Left out

- Null arguments are not modelled: Dafny strings are never null, so `IllegalArgumentException`
  has no counterpart. `MalformedKeyException` is the `Failure(MalformedKey)` result.
- Both exceptions and the `PrefixMap` interface are not part of this model.
- `getRoot` (Trie.java:101-103), the getters and setters of `Node` other than `setChild`, and
  the `Node(String)` constructor are not modelled. They are plain accessors, and nothing in the
  class calls `Node(String)`.
- `findEndOfKeyNode` (Trie.java:500-512) is not modelled. It is an unfinished stub that does not
  compile: it uses a type `Char` that does not exist.
- Java compares strings by identity at three places.
  - `key == ""` at Trie.java:145 is modelled as "the key is empty". A non-interned empty key
    reaches the root through the general path with the same effect.
  - `getValue() == value` at Trie.java:373 and 399 is modelled as string equality. With the
    interned literals the class is used with, the two agree.
- `PrefixTrie.Trie.Size`, `TrieQueries.CountKeysMatchingPrefix`, `TrieQueries.CountBelow`,
  `TrieStatistics.CountPrefixes` and `TrieStatistics.SumKeyLengths`: Java `int` counters wrap
  around at 2^31. The model counts with unbounded integers.
- The prefix queries are module-level methods that take the trie as a parameter. In the source
  they are members of the class.
- `TrieQueries.GetKeysMatchingPrefixByValue`: Trie.java:339-340 calls `getSingleKeyMatchingPrefix`
  twice, the second time for the result that was just tested against `null`. Since the result is
  never `null` and the call has no side effects, the model calls it once and appends the result.
- The `List` accumulators that the source mutates (`values`, `keys`, `found`) are sequence values
  that each method returns updated. The source has no aliasing of these lists that this would
  miss.
- Some loop bodies are their own methods, to keep each proof small. The steps are the same and in
  the same order.
  - `TrieQueries.SearchSlot` is one iteration of `searchPathInvalid`'s loop.
  - `TrieQueries.KeysForValues` is the loop of `getKeysMatchingPrefix`.
  - `TrieStatistics.AddPrefixes` and `TrieStatistics.GatherPrefixes` are the loops of
    `countPrefixes`.
  - `TrieStatistics.AllKeys` is the call that lists all keys.
  - `PrefixTrie.Trie.Climb` is one iteration of `remove`'s pruning loop.
- The ghost field `Height` bounds the depth of the tree and provides the termination measure of
  the recursive walks. `PrefixTrie.Trie.Extend` raises it when it adds a node deeper than the
  bound. The source has no such field: its recursions end because the tree is finite.
- `TrieStatistics.AllKeys`, `TrieStatistics.CountPrefixes` and `TrieStatistics.SumKeyLengths`
  start from the corrected key listing `TrieQueries.GetKeysMatchingPrefix`, not the as-written
  one. With the as-written listing, a shared value can drop a key or list one twice, as the
  finding below shows.

## Findings

| source | as written | input that shows it | evidently intended | confidence | as-written member | corrected member |
|---|---|---|---|---|---|---|
| Trie.java:299-344 (with 370-390) | `getKeysMatchingPrefix` collects the values below the prefix, then looks up a key for each value with `getSingleKeyMatchingPrefix`. That returns the first key in walk order holding an equal value, so two keys with the same value both come back as the first of them. | `put("AA","1"); put("AACT","2"); put("TCAG","2"); getKeysMatchingPrefix("")` gives `[AA, AACT, AACT]`: `TCAG` is missing and `AACT` is listed twice. `sumKeyLengths` then still gives 10, only because both keys have length 4. | the list holds each stored key that extends the prefix exactly once | not executed | `TrieQueries.GetKeysMatchingPrefixByValue`, `ByValueFinding.SharedValueMissesKey`, `ByValueFinding.ByValueCounterexample` | `TrieQueries.GetKeysMatchingPrefix` (with `TrieQueries.CollectKeys`, `TrieQueries.WalkAll`) |
