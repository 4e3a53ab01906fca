/**
 * The read-only queries of Trie.java (Trie.java:246-460): counting and listing the keys under a
 * prefix, and the two whole-trie statistics built on the key list. None of them changes the
 * trie; each walks the tree from the node at the end of the prefix, depth first, in slot order,
 * and is proved against the walk `Walk` of the stored map.
 */
module TrieQueries {
  import opened Wrappers
  import opened Alphabet
  import opened KeyWalk
  import opened PrefixTrie

  lemma AppendAssoc<T>(a: seq<T>, b: seq<T>, c: seq<T>)
    ensures (a + b) + c == a + (b + c)
  {
  }

  /** Appending the values of one more list to an accumulator of values. */
  lemma ValuesStep(m: Store, values: seq<string>, walked: seq<string>, sub: seq<string>)
    requires AllStored(m, walked) && AllStored(m, sub)
    ensures AllStored(m, walked + sub)
    ensures ValuesOf(m, walked + sub) == ValuesOf(m, walked) + ValuesOf(m, sub)
    ensures values + ValuesOf(m, walked + sub) == (values + ValuesOf(m, walked)) + ValuesOf(m, sub)
  {
    ValuesOfAppend(m, walked, sub);
    AppendAssoc(values, ValuesOf(m, walked), ValuesOf(m, sub));
  }

  /** A value is among the values of two lists exactly when it is among those of one of them. */
  lemma ValuesIn(m: Store, a: seq<string>, c: seq<string>, v: string)
    requires AllStored(m, a) && AllStored(m, c)
    ensures AllStored(m, a + c)
    ensures v in ValuesOf(m, a + c) <==> v in ValuesOf(m, a) || v in ValuesOf(m, c)
  {
    ValuesOfAppend(m, a, c);
  }

  /** index(int) spells the base of the slot. */
  lemma SymbolIsBase(i: int)
    requires 0 <= i < 4
    ensures Symbol(i) == Some([Bases[i]])
  {
    IndexSymbolInverse(Bases[i], i);
  }

  /** One more child slot adds the walk of that child's subtree to the walk so far. */
  lemma WalkChildrenStep(m: Store, k: string, bound: int, i: nat)
    requires i < 4 && |k| < bound
    ensures WalkChildren(m, k, bound, i + 1) == WalkChildren(m, k, bound, i) + Walk(m, k + [Bases[i]], bound)
  {
  }

  /**
   * Once the value is met among the keys of the node and its first `i` + 1 subtrees, the later
   * subtrees do not change which key holds it first.
   */
  lemma {:induction false} FirstWithStable(m: Store, k: string, bound: int, i: nat, j: nat, v: string)
    requires i < j <= 4 && |k| < bound
    requires v in ValuesOf(m, Own(m, k) + WalkChildren(m, k, bound, i + 1))
    ensures v in ValuesOf(m, Own(m, k) + WalkChildren(m, k, bound, j))
    ensures FirstWith(m, Own(m, k) + WalkChildren(m, k, bound, j), v, k)
         == FirstWith(m, Own(m, k) + WalkChildren(m, k, bound, i + 1), v, k)
    decreases j
  {
    if j > i + 1 {
      FirstWithStable(m, k, bound, i, j - 1, v);
      var a := Own(m, k) + WalkChildren(m, k, bound, j - 1);
      var b := Walk(m, k + [Bases[j - 1]], bound);
      WalkChildrenStep(m, k, bound, j - 1);
      assert Own(m, k) + WalkChildren(m, k, bound, j) == a + b;
      FirstWithAppend(m, a, b, v, k);
      ValuesOfAppend(m, a, b);
    }
  }

  /**
   * getSingleKeyMatchingPrefix's descent: when no key of the node and its first `i` subtrees
   * holds the value but subtree `i` does, the first key holding it is the first one in subtree
   * `i`.
   */
  lemma FirstWithInChild(m: Store, k: string, bound: int, i: nat, v: string)
    requires i < 4 && |k| < bound
    requires v !in ValuesOf(m, Own(m, k) + WalkChildren(m, k, bound, i))
    requires v in ValuesOf(m, Walk(m, k + [Bases[i]], bound))
    ensures FirstWith(m, Walk(m, k, bound), v, k) == FirstWith(m, Walk(m, k + [Bases[i]], bound), v, k + [Bases[i]])
  {
    var a := Own(m, k) + WalkChildren(m, k, bound, i);
    var c := Walk(m, k + [Bases[i]], bound);
    WalkChildrenStep(m, k, bound, i);
    assert Own(m, k) + WalkChildren(m, k, bound, i + 1) == a + c;
    FirstWithAppend(m, a, c, v, k);
    FirstWithFallback(m, c, v, k, k + [Bases[i]]);
    ValuesOfAppend(m, a, c);
    FirstWithStable(m, k, bound, i, 4, v);
  }

  /** The walk from the empty key lists every stored key, each once. */
  lemma WalkAll(t: Trie, k: string)
    requires t.Valid()
    ensures Distinct(Walk(t.Contents, k, t.Height))
    ensures forall x :: x in Walk(t.Contents, k, t.Height) <==> x in KeysWithPrefix(t.Contents, k)
    ensures |Walk(t.Contents, k, t.Height)| == |KeysWithPrefix(t.Contents, k)|
    ensures k == "" ==> KeysWithPrefix(t.Contents, k) == t.Contents.Keys
  {
    t.ContentsValid();
    WalkIsKeysWithPrefix(t.Contents, k, t.Height);
  }

  /**
   * The part of a valid trie's invariant that the queries read: each node has four slots, lies
   * within the height bound and holds the value stored under its key; each slot holds the node
   * of the key extended by the slot's base; and every prefix of a stored key leads to a node.
   */
  ghost predicate Sound(t: Trie)
    reads t, t.Nodes.Values, t.Slots()
  {
    && (forall k | k in t.Nodes ::
          t.Nodes[k].children.Length == 4 && |k| <= t.Height && t.Nodes[k].value == Lookup(t.Contents, k))
    && t.ChildLinks()
    && (forall x, p | x in t.Contents && p <= x :: p in t.Nodes)
  }

  lemma ValidIsSound(t: Trie)
    requires t.Valid()
    ensures Sound(t)
  {
    forall x, p | x in t.Contents && p <= x
      ensures p in t.Nodes
    {
      assert x[..|p|] == p;
      t.PrefixInNodes(x, |p|);
    }
  }

  /** Where there is no node, no stored key extends the key, and the walk from it is empty. */
  lemma Absent(t: Trie, k: string)
    requires Sound(t) && k !in t.Nodes
    ensures Walk(t.Contents, k, t.Height) == []
  {
    WalkEmpty(t.Contents, k, t.Height);
  }

  /** What a slot of a node holds, and what the node's own value says about the stored keys. */
  lemma NodeFacts(t: Trie, k: string)
    requires Sound(t) && k in t.Nodes
    ensures t.Nodes[k].children.Length == 4 && |k| <= t.Height
    ensures forall i | 0 <= i < 4 :: t.Nodes[k].children[i] == t.NodeAt(k + [Bases[i]])
    ensures t.Nodes[k].value == Lookup(t.Contents, k)
  {
  }

  /** The walk below a slot of a node, whether or not the slot is filled. */
  lemma ChildWalk(t: Trie, k: string, i: nat)
    requires Sound(t) && k in t.Nodes && i < 4
    ensures t.Nodes[k].children[i] == t.NodeAt(k + [Bases[i]])
    ensures t.Nodes[k].children[i] == null ==> Walk(t.Contents, k + [Bases[i]], t.Height) == []
    ensures t.Nodes[k].children[i] != null ==> k + [Bases[i]] in t.Nodes && |k| < t.Height
    ensures Own(t.Contents, k) + WalkChildren(t.Contents, k, t.Height, i + 1)
         == (Own(t.Contents, k) + WalkChildren(t.Contents, k, t.Height, i)) + Walk(t.Contents, k + [Bases[i]], t.Height)
  {
    NodeFacts(t, k);
    if t.Nodes[k].children[i] == null {
      Absent(t, k + [Bases[i]]);
    }
    AppendAssoc(Own(t.Contents, k), WalkChildren(t.Contents, k, t.Height, i), Walk(t.Contents, k + [Bases[i]], t.Height));
  }

  /**
   * countKeysMatchingPrefix(Node): a missing node counts nothing; otherwise the node counts one
   * if it holds a value, plus what each of its four subtrees counts.
   */
  method CountBelow(t: Trie, node: Node?, ghost k: string) returns (count: int)
    requires Sound(t) && node == t.NodeAt(k)
    ensures Sound(t)
    ensures count == |Walk(t.Contents, k, t.Height)|
    decreases t.Height + 1 - |k|
  {
    if node == null {
      Absent(t, k);
      return 0;
    }
    NodeFacts(t, k);
    count := 0;
    if node.HasValue() {
      count := count + 1;
    }
    ghost var walked := Own(t.Contents, k);
    for i := 0 to node.children.Length
      invariant Sound(t)
      invariant walked == Own(t.Contents, k) + WalkChildren(t.Contents, k, t.Height, i)
      invariant count == |walked|
    {
      ChildWalk(t, k, i);
      ghost var sub := Walk(t.Contents, k + [Bases[i]], t.Height);
      var n := CountBelow(t, node.children[i], k + [Bases[i]]);
      count := count + n;
      walked := walked + sub;
    }
  }

  /**
   * countKeysMatchingPrefix(String): the number of stored keys that start with the prefix; a
   * prefix whose path is missing counts none, and a malformed prefix is refused.
   */
  method CountKeysMatchingPrefix(t: Trie, prefix: string) returns (r: Result<int, KeyError>)
    requires t.Valid()
    ensures r == if IsValidKey(prefix) then Success(|KeysWithPrefix(t.Contents, prefix)|) else Failure(MalformedKey)
  {
    if !IsValidKey(prefix) {
      return Failure(MalformedKey);
    }
    WalkAll(t, prefix);
    ValidIsSound(t);
    var current := t.Find(prefix);
    if current == null {
      Absent(t, prefix);
      return Success(0);
    }
    var count := CountBelow(t, current, prefix);
    return Success(count);
  }

  /**
   * getAllValuesFromNode: appends the values stored in the subtree of the node to `values`, the
   * node's own value first and then its subtrees in slot order.
   */
  method CollectValues(t: Trie, node: Node?, ghost k: string, values: seq<string>) returns (out: seq<string>)
    requires Sound(t) && node == t.NodeAt(k)
    ensures Sound(t)
    ensures out == values + ValuesOf(t.Contents, Walk(t.Contents, k, t.Height))
    decreases t.Height + 1 - |k|
  {
    if node == null {
      Absent(t, k);
      return values;
    }
    NodeFacts(t, k);
    out := values;
    if node.HasValue() {
      out := out + [node.value.value];
    }
    ghost var walked := Own(t.Contents, k);
    for i := 0 to node.children.Length
      invariant Sound(t)
      invariant walked == Own(t.Contents, k) + WalkChildren(t.Contents, k, t.Height, i)
      invariant AllStored(t.Contents, walked)
      invariant out == values + ValuesOf(t.Contents, walked)
    {
      ChildWalk(t, k, i);
      ghost var sub := Walk(t.Contents, k + [Bases[i]], t.Height);
      ValuesStep(t.Contents, values, walked, sub);
      out := CollectValues(t, node.children[i], k + [Bases[i]], out);
      walked := walked + sub;
    }
  }

  /**
   * searchPathInvalid: true exactly when no node in the subtree holds the value; once the value
   * is found, the remaining subtrees are not searched.
   */
  method SearchPathInvalid(t: Trie, node: Node, ghost k: string, v: string) returns (b: bool)
    requires Sound(t) && k in t.Nodes && t.Nodes[k] == node
    ensures Sound(t)
    ensures b <==> v !in ValuesOf(t.Contents, Walk(t.Contents, k, t.Height))
    decreases t.Height - |k|, 1
  {
    NodeFacts(t, k);
    b := node.value != Some(v);
    ghost var walked := Own(t.Contents, k);
    for i := 0 to node.children.Length
      invariant Sound(t)
      invariant walked == Own(t.Contents, k) + WalkChildren(t.Contents, k, t.Height, i)
      invariant b <==> v !in ValuesOf(t.Contents, walked)
    {
      ChildWalk(t, k, i);
      ghost var sub := Walk(t.Contents, k + [Bases[i]], t.Height);
      ValuesIn(t.Contents, walked, sub, v);
      b := SearchSlot(t, node, k, i, v, b);
      walked := walked + sub;
    }
  }

  /** One step of searchPathInvalid's loop: the search goes on into slot `i` only while nothing is found. */
  method SearchSlot(t: Trie, node: Node, ghost k: string, i: nat, v: string, b: bool) returns (b': bool)
    requires Sound(t) && k in t.Nodes && t.Nodes[k] == node && i < 4
    ensures Sound(t)
    ensures b' <==> b && v !in ValuesOf(t.Contents, Walk(t.Contents, k + [Bases[i]], t.Height))
    decreases t.Height - |k|, 0
  {
    ChildWalk(t, k, i);
    var n := node.children[i];
    b' := b;
    if n != null && b {
      b' := SearchPathInvalid(t, n, k + [Bases[i]], v);
    }
  }

  /**
   * getSingleKeyMatchingPrefix: from the node at `key`, the first key in walk order that holds
   * the value, found by descending into the first subtree that holds it; `key` itself when no
   * key in the subtree holds the value.
   */
  method GetSingleKeyMatchingPrefix(t: Trie, node: Node, key: string, v: string) returns (r: string)
    requires Sound(t) && key in t.Nodes && t.Nodes[key] == node
    ensures Sound(t)
    ensures r == FirstWith(t.Contents, Walk(t.Contents, key, t.Height), v, key)
    decreases t.Height - |key|
  {
    NodeFacts(t, key);
    if node.value == Some(v) {
      return key;
    }
    ghost var walked := Own(t.Contents, key);
    for i := 0 to 4
      invariant Sound(t)
      invariant walked == Own(t.Contents, key) + WalkChildren(t.Contents, key, t.Height, i)
      invariant AllStored(t.Contents, walked)
      invariant v !in ValuesOf(t.Contents, walked)
    {
      ChildWalk(t, key, i);
      ghost var sub := Walk(t.Contents, key + [Bases[i]], t.Height);
      ValuesStep(t.Contents, [], walked, sub);
      var n := node.children[i];
      if n != null {
        var invalid := SearchPathInvalid(t, n, key + [Bases[i]], v);
        if !invalid {
          SymbolIsBase(i);
          var extended := key + Symbol(i).value;
          r := GetSingleKeyMatchingPrefix(t, n, extended, v);
          FirstWithInChild(t.Contents, key, t.Height, i, v);
          return;
        }
      }
      walked := walked + sub;
    }
    return key;
  }

  /**
   * getKeysMatchingPrefix's second loop: for each value in turn, the key that
   * getSingleKeyMatchingPrefix reconstructs from it below the node at the prefix.
   */
  method KeysForValues(t: Trie, node: Node, prefix: string, vals: seq<string>) returns (keys: seq<string>)
    requires Sound(t) && prefix in t.Nodes && t.Nodes[prefix] == node
    ensures AllStored(t.Contents, Walk(t.Contents, prefix, t.Height))
    ensures keys == KeysFor(t.Contents, Walk(t.Contents, prefix, t.Height), vals, prefix)
  {
    ghost var ks := Walk(t.Contents, prefix, t.Height);
    keys := [];
    assert vals[0..] == vals;
    for i := 0 to |vals|
      invariant Sound(t)
      invariant keys + KeysFor(t.Contents, ks, vals[i..], prefix) == KeysFor(t.Contents, ks, vals, prefix)
    {
      var key := GetSingleKeyMatchingPrefix(t, node, prefix, vals[i]);
      assert vals[i..][0] == vals[i] && vals[i..][1..] == vals[i + 1..];
      AppendAssoc(keys, [key], KeysFor(t.Contents, ks, vals[i + 1..], prefix));
      keys := keys + [key];
    }
    assert vals[|vals|..] == [];
  }

  /**
   * getKeysMatchingPrefix as written: collects the values under the prefix, then for each value,
   * in order, the key that getSingleKeyMatchingPrefix reconstructs from it.
   */
  method GetKeysMatchingPrefixByValue(t: Trie, prefix: string) returns (r: Result<seq<string>, KeyError>)
    requires t.Valid()
    ensures r == if IsValidKey(prefix) then Success(Reconstruct(t.Contents, Walk(t.Contents, prefix, t.Height), prefix))
                 else Failure(MalformedKey)
  {
    if !IsValidKey(prefix) {
      return Failure(MalformedKey);
    }
    ValidIsSound(t);
    var current := t.Find(prefix);
    if current == null {
      Absent(t, prefix);
      return Success([]);
    }
    var vals := CollectValues(t, current, prefix, []);
    assert vals == ValuesOf(t.Contents, Walk(t.Contents, prefix, t.Height));
    var keys := KeysForValues(t, current, prefix, vals);
    return Success(keys);
  }

  /**
   * The key collection getKeysMatchingPrefix evidently intends: appends the keys stored in the
   * subtree of the node at `key` to `keys`, in the order getAllValuesFromNode meets their values.
   */
  method CollectKeys(t: Trie, node: Node?, key: string, keys: seq<string>) returns (out: seq<string>)
    requires Sound(t) && node == t.NodeAt(key)
    ensures Sound(t)
    ensures out == keys + Walk(t.Contents, key, t.Height)
    decreases t.Height + 1 - |key|
  {
    if node == null {
      Absent(t, key);
      return keys;
    }
    NodeFacts(t, key);
    out := keys;
    if node.HasValue() {
      out := out + [key];
    }
    ghost var walked := Own(t.Contents, key);
    for i := 0 to node.children.Length
      invariant Sound(t)
      invariant walked == Own(t.Contents, key) + WalkChildren(t.Contents, key, t.Height, i)
      invariant out == keys + walked
    {
      ChildWalk(t, key, i);
      SymbolIsBase(i);
      var extended := key + Symbol(i).value;
      ghost var sub := Walk(t.Contents, extended, t.Height);
      out := CollectKeys(t, node.children[i], extended, out);
      AppendAssoc(keys, walked, sub);
      walked := walked + sub;
    }
  }

  /**
   * getKeysMatchingPrefix, corrected: every stored key that starts with the prefix, each exactly
   * once, in walk order; a malformed prefix is refused.
   */
  method GetKeysMatchingPrefix(t: Trie, prefix: string) returns (r: Result<seq<string>, KeyError>)
    requires t.Valid()
    ensures r == if IsValidKey(prefix) then Success(Walk(t.Contents, prefix, t.Height)) else Failure(MalformedKey)
  {
    if !IsValidKey(prefix) {
      return Failure(MalformedKey);
    }
    ValidIsSound(t);
    var current := t.Find(prefix);
    if current == null {
      Absent(t, prefix);
      return Success([]);
    }
    var keys := CollectKeys(t, current, prefix, []);
    assert keys == Walk(t.Contents, prefix, t.Height);
    return Success(keys);
  }
}
