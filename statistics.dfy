/**
 * The two whole-trie statistics of Trie.java (Trie.java:412-460): the number of distinct
 * non-empty prefixes of the stored keys, and the total length of the stored keys. Both start
 * from the list of every stored key, the corrected getKeysMatchingPrefix of the empty prefix.
 */
module TrieStatistics {
  import opened Wrappers
  import opened KeyWalk
  import opened PrefixTrie
  import opened TrieQueries

  /** The prefixes of `k` of lengths 1 to `j`. */
  ghost function LeadingPrefixes(k: string, j: nat): set<string>
    requires j <= |k|
  {
    set n | 1 <= n <= j :: k[..n]
  }

  /** One more character of a key adds one more leading prefix. */
  lemma LeadingPrefixesStep(k: string, j: nat)
    requires j < |k|
    ensures LeadingPrefixes(k, j + 1) == LeadingPrefixes(k, j) + {k[..j + 1]}
  {
  }

  /** The prefixes of one more key join the prefixes of the keys met so far. */
  lemma NonEmptyPrefixesAdd(keys: set<string>, k: string)
    ensures NonEmptyPrefixes(keys + {k}) == NonEmptyPrefixes(keys) + LeadingPrefixes(k, |k|)
  {
  }

  /** The strings in a list, as a set. */
  ghost function Elements(s: seq<string>): set<string>
  {
    set x | x in s
  }

  /** Appending a string adds it to the set, and keeps a list without repetitions so if it is new. */
  lemma ElementsAppend(s: seq<string>, x: string)
    ensures Elements(s + [x]) == Elements(s) + {x}
    ensures Distinct(s) && x !in s ==> Distinct(s + [x])
  {
  }

  /** The set of the first `i` + 1 listed keys. */
  lemma ElementsStep(keys: seq<string>, i: nat)
    requires i < |keys|
    ensures Elements(keys[..i + 1]) == Elements(keys[..i]) + {keys[i]}
  {
    assert keys[..i + 1] == keys[..i] + [keys[i]];
    ElementsAppend(keys[..i], keys[i]);
  }

  /** Every stored key, each once: the corrected key listing from the empty prefix. */
  method AllKeys(t: Trie) returns (keys: seq<string>)
    requires t.Valid()
    ensures Distinct(keys)
    ensures Elements(keys) == t.Contents.Keys
  {
    var r := GetKeysMatchingPrefix(t, "");
    WalkAll(t, "");
    keys := r.value;
  }

  /**
   * countPrefixes' inner loop: appends to `found` each prefix of `key`, shortest first, that
   * `found` does not hold yet.
   */
  method AddPrefixes(found: seq<string>, key: string) returns (found': seq<string>)
    requires Distinct(found)
    ensures Distinct(found')
    ensures Elements(found') == Elements(found) + LeadingPrefixes(key, |key|)
  {
    found' := found;
    for j := 0 to |key|
      invariant Distinct(found')
      invariant Elements(found') == Elements(found) + LeadingPrefixes(key, j)
    {
      var substr := key[..j + 1];
      LeadingPrefixesStep(key, j);
      ElementsAppend(found', substr);
      if substr !in found' {
        found' := found' + [substr];
      }
    }
  }

  /** countPrefixes' outer loop: the distinct non-empty prefixes of the listed keys, each once. */
  method GatherPrefixes(keys: seq<string>) returns (found: seq<string>)
    ensures Distinct(found)
    ensures Elements(found) == NonEmptyPrefixes(Elements(keys))
  {
    found := [];
    for i := 0 to |keys|
      invariant Distinct(found)
      invariant Elements(found) == NonEmptyPrefixes(Elements(keys[..i]))
    {
      found := AddPrefixes(found, keys[i]);
      NonEmptyPrefixesAdd(Elements(keys[..i]), keys[i]);
      ElementsStep(keys, i);
    }
    assert keys[..|keys|] == keys;
  }

  /**
   * countPrefixes: lists every stored key, gathers their distinct non-empty prefixes, and
   * counts them.
   */
  method CountPrefixes(t: Trie) returns (total: int)
    requires t.Valid()
    ensures total == |NonEmptyPrefixes(t.Contents.Keys)|
  {
    var keys := AllKeys(t);
    var found := GatherPrefixes(keys);
    total := 0;
    for i := 0 to |found|
      invariant total == i
    {
      total := total + 1;
    }
    DistinctCard(found);
  }

  /** The total length of the first `i` + 1 listed keys. */
  lemma SumLengthsStep(ks: seq<string>, i: nat)
    requires i < |ks|
    ensures SumLengths(ks[..i + 1]) == SumLengths(ks[..i]) + |ks[i]|
  {
    if i > 0 {
      assert ks[1..][..i] == ks[..i + 1][1..];
      assert ks[1..][..i - 1] == ks[..i][1..];
      SumLengthsStep(ks[1..], i - 1);
    }
  }

  /** sumKeyLengths: lists every stored key and adds up their lengths. */
  method SumKeyLengths(t: Trie) returns (total: int)
    requires t.Valid()
    ensures total == SetSumLengths(t.Contents.Keys)
  {
    var keys := AllKeys(t);
    total := 0;
    for i := 0 to |keys|
      invariant total == SumLengths(keys[..i])
    {
      SumLengthsStep(keys, i);
      total := total + |keys[i]|;
    }
    assert keys[..|keys|] == keys;
    SumLengthsDistinct(keys);
  }

  /** countKeysMatchingPrefix of the empty prefix counts every key: it equals size. */
  lemma CountAllIsSize(t: Trie)
    requires t.Valid()
    ensures |KeysWithPrefix(t.Contents, "")| == t.size
  {
    WalkAll(t, "");
  }

  /** Both statistics are 0 for a trie that holds no key. */
  lemma EmptyStatistics(t: Trie)
    requires t.Valid() && t.size == 0
    ensures |NonEmptyPrefixes(t.Contents.Keys)| == 0
    ensures SetSumLengths(t.Contents.Keys) == 0
  {
    assert t.Contents.Keys == {};
  }

  /** The four leading prefixes of a key of length 4. */
  lemma AllLeadingPrefixes(k: string)
    requires |k| == 4
    ensures LeadingPrefixes(k, 4) == {k[..1], k[..2], k[..3], k[..4]}
  {
    assert LeadingPrefixes(k, 0) == {};
    LeadingPrefixesStep(k, 0);
    LeadingPrefixesStep(k, 1);
    LeadingPrefixesStep(k, 2);
    LeadingPrefixesStep(k, 3);
  }

  /** The non-empty prefixes of two keys of length 4. */
  lemma PrefixesOfPair(x: string, y: string)
    requires |x| == 4 && |y| == 4
    ensures NonEmptyPrefixes({x, y}) == {x[..1], x[..2], x[..3], x[..4]} + {y[..1], y[..2], y[..3], y[..4]}
  {
    assert NonEmptyPrefixes({}) == {};
    NonEmptyPrefixesAdd({}, x);
    assert {} + {x} == {x};
    NonEmptyPrefixesAdd({x}, y);
    assert {x} + {y} == {x, y};
    AllLeadingPrefixes(x);
    AllLeadingPrefixes(y);
  }

  /** The keys "AAAA" and "AATA" have six distinct non-empty prefixes. */
  lemma CountPrefixesExample()
    ensures NonEmptyPrefixes({"AAAA", "AATA"}) == {"A", "AA", "AAA", "AAAA", "AAT", "AATA"}
    ensures |NonEmptyPrefixes({"AAAA", "AATA"})| == 6
  {
    PrefixesOfPair("AAAA", "AATA");
    assert "AAAA"[..1] == "A" && "AAAA"[..2] == "AA" && "AAAA"[..3] == "AAA" && "AAAA"[..4] == "AAAA";
    assert "AATA"[..1] == "A" && "AATA"[..2] == "AA" && "AATA"[..3] == "AAT" && "AATA"[..4] == "AATA";
    assert {"AAAA"[..1], "AAAA"[..2], "AAAA"[..3], "AAAA"[..4]} == {"A", "AA", "AAA", "AAAA"};
    assert {"AATA"[..1], "AATA"[..2], "AATA"[..3], "AATA"[..4]} == {"A", "AA", "AAT", "AATA"};
    assert {"A", "AA", "AAA", "AAAA"} + {"A", "AA", "AAT", "AATA"} == {"A", "AA", "AAA", "AAAA", "AAT", "AATA"};
  }

  /** The key lengths of "AA", "AACT", "TCAG" add up to 10, and those of "AAA", "AAAA" to 7. */
  lemma SumKeyLengthsExample()
    ensures SetSumLengths({"AA", "AACT", "TCAG"}) == 10
    ensures SetSumLengths({"AAA", "AAAA"}) == 7
  {
    SetSumLengthsRemove({"AA", "AACT", "TCAG"}, "AA");
    assert {"AA", "AACT", "TCAG"} - {"AA"} == {"AACT", "TCAG"};
    SetSumLengthsRemove({"AACT", "TCAG"}, "AACT");
    assert {"AACT", "TCAG"} - {"AACT"} == {"TCAG"};
    SetSumLengthsRemove({"TCAG"}, "TCAG");
    assert {"TCAG"} - {"TCAG"} == {};
    SetSumLengthsRemove({"AAA", "AAAA"}, "AAA");
    assert {"AAA", "AAAA"} - {"AAA"} == {"AAAA"};
    SetSumLengthsRemove({"AAAA"}, "AAAA");
    assert {"AAAA"} - {"AAAA"} == {};
  }
}
