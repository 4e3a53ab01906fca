/**
 * What the trie's queries compute, stated over the map from keys to values that a trie stores.
 *
 * The trie is walked depth first: a node, then the subtrees of its A, C, G and T children in
 * slot order. `Walk` lists the stored keys in exactly that order, which is the order in which
 * Trie.java's recursive collection (getAllValuesFromNode) meets their values.
 */
module KeyWalk {
  import opened Wrappers
  import opened Alphabet

  /** The abstract content of a trie: each stored key with its value. */
  type Store = map<string, string>

  /** What `get` answers for a key: its value, or none. */
  function Lookup(m: Store, k: string): Option<string>
  {
    if k in m then Some(m[k]) else None
  }

  /** Taking out a key that is not stored changes nothing. */
  lemma RemoveAbsent(m: Store, k: string)
    requires k !in m
    ensures m - {k} == m
  {
  }

  /** The stored keys that have `p` as a prefix. */
  function KeysWithPrefix(m: Store, p: string): set<string>
  {
    set k | k in m && p <= k
  }

  /** A longer prefix selects no more keys: each key below `q` is also below its prefix `p`. */
  lemma PrefixCountMonotone(m: Store, p: string, q: string)
    requires p <= q
    ensures KeysWithPrefix(m, q) <= KeysWithPrefix(m, p)
    ensures |KeysWithPrefix(m, q)| <= |KeysWithPrefix(m, p)|
  {
    forall x | x in KeysWithPrefix(m, q)
      ensures p <= x
    {
      assert x[..|p|] == q[..|p|];
    }
    SubsetCard(KeysWithPrefix(m, q), KeysWithPrefix(m, p));
  }

  /** A subset of a finite set is no larger than the set. */
  lemma {:induction false} SubsetCard(a: set<string>, b: set<string>)
    requires a <= b
    ensures |a| <= |b|
    decreases |a|
  {
    if a != {} {
      var x :| x in a;
      SubsetCard(a - {x}, b - {x});
    }
  }

  /** Every stored key is a string over the four bases. */
  predicate ValidKeys(m: Store)
  {
    forall k | k in m :: IsValidKey(k)
  }

  predicate Distinct(s: seq<string>)
  {
    forall i, j | 0 <= i < j < |s| :: s[i] != s[j]
  }

  /** The key of the node itself, when that node holds a value. */
  function Own(m: Store, k: string): seq<string>
  {
    if k in m then [k] else []
  }

  /** Every listed key is stored. */
  predicate AllStored(m: Store, ks: seq<string>)
  {
    forall j | 0 <= j < |ks| :: ks[j] in m
  }

  /**
   * The stored keys of the subtree at `k`, in depth-first order: `k` itself first, then the keys
   * under `k` + "A", `k` + "C", `k` + "G" and `k` + "T". Keys longer than `bound` are not visited
   * (a trie whose keys are all at most `bound` long has no node deeper than that).
   */
  function Walk(m: Store, k: string, bound: int): (ks: seq<string>)
    ensures AllStored(m, ks)
    decreases bound - |k|, 5
  {
    Own(m, k) + WalkChildren(m, k, bound, 4)
  }

  /** The walks of the subtrees in the first `i` child slots of the node at `k`, one after another. */
  function WalkChildren(m: Store, k: string, bound: int, i: nat): (ks: seq<string>)
    requires i <= 4
    ensures AllStored(m, ks)
    decreases bound - |k|, i
  {
    if i == 0 || bound <= |k| then []
    else WalkChildren(m, k, bound, i - 1) + Walk(m, k + [Bases[i - 1]], bound)
  }

  /** The walk from `k` lists only keys that extend `k`, and none longer than the bound but `k` itself. */
  lemma {:induction false} WalkBounds(m: Store, k: string, bound: int)
    ensures forall x | x in Walk(m, k, bound) :: k <= x && (x == k || |x| <= bound)
    decreases bound - |k|, 5
  {
    WalkChildrenBounds(m, k, bound, 4);
  }

  /** The walks of the first `i` subtrees list keys one base longer than `k` at least, through slots below `i`. */
  lemma {:induction false} WalkChildrenBounds(m: Store, k: string, bound: int, i: nat)
    requires i <= 4
    ensures forall x | x in WalkChildren(m, k, bound, i) :: k <= x && |k| < |x| <= bound && x[|k|] in Bases[..i]
    decreases bound - |k|, i
  {
    if i > 0 && |k| < bound {
      var c := Bases[i - 1];
      WalkChildrenBounds(m, k, bound, i - 1);
      WalkBounds(m, k + [c], bound);
      forall x | x in Walk(m, k + [c], bound)
        ensures k <= x && |k| < |x| && x[|k|] == c
      {
        assert (k + [c])[..|k|] == k && (k + [c])[|k|] == c;
      }
    }
  }

  /** Where no stored key extends `k`, the walk from `k` is empty. */
  lemma {:induction false} WalkEmpty(m: Store, k: string, bound: int)
    requires forall x | x in m :: !(k <= x)
    ensures Walk(m, k, bound) == []
    decreases bound - |k|, 5
  {
    WalkChildrenEmpty(m, k, bound, 4);
  }

  lemma {:induction false} WalkChildrenEmpty(m: Store, k: string, bound: int, i: nat)
    requires i <= 4
    requires forall x | x in m :: !(k <= x)
    ensures WalkChildren(m, k, bound, i) == []
    decreases bound - |k|, i
  {
    if i > 0 && |k| < bound {
      var c := Bases[i - 1];
      WalkChildrenEmpty(m, k, bound, i - 1);
      forall x | x in m
        ensures !(k + [c] <= x)
      {
      }
      WalkEmpty(m, k + [c], bound);
    }
  }

  lemma BasesDistinct()
    ensures forall a, b | 0 <= a < b < 4 :: Bases[a] != Bases[b]
  {
  }

  lemma PrefixStep(k: string, c: char, x: string)
    requires k <= x && |k| < |x|
    ensures k + [c] <= x <==> x[|k|] == c
  {
    if x[|k|] == c {
      assert x[..|k| + 1] == k + [c];
    }
  }

  /** Every stored key below `k` and within the bound is reached by the walk. */
  lemma {:induction false} WalkComplete(m: Store, k: string, bound: int, x: string)
    requires ValidKeys(m)
    requires x in m && k <= x && (x == k || |x| <= bound)
    ensures x in Walk(m, k, bound)
    decreases bound - |k|, 5
  {
    if x != k {
      assert x[|k|] in Bases;
      var j :| 0 <= j < 4 && Bases[j] == x[|k|];
      WalkChildrenComplete(m, k, bound, 4, j, x);
    }
  }

  lemma {:induction false} WalkChildrenComplete(m: Store, k: string, bound: int, i: nat, j: nat, x: string)
    requires j < i <= 4 && ValidKeys(m)
    requires x in m && k <= x && |k| < |x| <= bound && x[|k|] == Bases[j]
    ensures x in WalkChildren(m, k, bound, i)
    decreases bound - |k|, i
  {
    if j == i - 1 {
      PrefixStep(k, Bases[j], x);
      WalkComplete(m, k + [Bases[j]], bound, x);
    } else {
      WalkChildrenComplete(m, k, bound, i - 1, j, x);
    }
  }

  lemma DistinctConcat(a: seq<string>, b: seq<string>)
    requires Distinct(a) && Distinct(b)
    requires forall x | x in a :: x !in b
    ensures Distinct(a + b)
  {
    forall i, j | 0 <= i < j < |a + b|
      ensures (a + b)[i] != (a + b)[j]
    {
      if i < |a| <= j {
        assert (a + b)[i] in a && (a + b)[j] in b;
      }
    }
  }

  /** The walk visits each stored key at most once. */
  lemma {:induction false} WalkDistinct(m: Store, k: string, bound: int)
    ensures Distinct(Walk(m, k, bound))
    decreases bound - |k|, 5
  {
    WalkChildrenDistinct(m, k, bound, 4);
    WalkChildrenBounds(m, k, bound, 4);
    DistinctConcat(Own(m, k), WalkChildren(m, k, bound, 4));
  }

  lemma {:induction false} WalkChildrenDistinct(m: Store, k: string, bound: int, i: nat)
    requires i <= 4
    ensures Distinct(WalkChildren(m, k, bound, i))
    decreases bound - |k|, i
  {
    if i > 0 && |k| < bound {
      var a := WalkChildren(m, k, bound, i - 1);
      var c := Bases[i - 1];
      var b := Walk(m, k + [c], bound);
      WalkChildrenDistinct(m, k, bound, i - 1);
      WalkDistinct(m, k + [c], bound);
      WalkChildrenBounds(m, k, bound, i - 1);
      WalkBounds(m, k + [c], bound);
      forall x | x in a
        ensures x !in b
      {
        assert x[|k|] in Bases[..i - 1];
        BasesDistinct();
        PrefixStep(k, c, x);
      }
      DistinctConcat(a, b);
    }
  }

  /** A list without repetitions has as many elements as its set. */
  lemma {:induction false} DistinctCard(s: seq<string>)
    requires Distinct(s)
    ensures |set x | x in s| == |s|
  {
    if s != [] {
      DistinctCard(s[1..]);
      assert (set x | x in s) == {s[0]} + (set x | x in s[1..]);
      assert s[0] !in s[1..];
    }
  }

  /**
   * When no stored key is longer than `bound`, the walk from `k` lists each stored key with
   * prefix `k` exactly once, and nothing else.
   */
  lemma WalkIsKeysWithPrefix(m: Store, k: string, bound: int)
    requires ValidKeys(m)
    requires forall x | x in m :: |x| <= bound
    ensures Distinct(Walk(m, k, bound))
    ensures forall x :: x in Walk(m, k, bound) <==> x in KeysWithPrefix(m, k)
    ensures |Walk(m, k, bound)| == |KeysWithPrefix(m, k)|
  {
    var ks := Walk(m, k, bound);
    WalkDistinct(m, k, bound);
    WalkBounds(m, k, bound);
    forall x | x in KeysWithPrefix(m, k)
      ensures x in ks
    {
      WalkComplete(m, k, bound, x);
    }
    assert (set x | x in ks) == KeysWithPrefix(m, k);
    DistinctCard(ks);
  }

  /** The values of the listed keys, in the same order. */
  function ValuesOf(m: Store, ks: seq<string>): (vs: seq<string>)
    requires AllStored(m, ks)
    ensures |vs| == |ks|
  {
    if ks == [] then [] else [m[ks[0]]] + ValuesOf(m, ks[1..])
  }

  /** The value at each position is the value of the key at that position. */
  lemma {:induction false} ValuesOfIndex(m: Store, ks: seq<string>, j: int)
    requires AllStored(m, ks) && 0 <= j < |ks|
    ensures ValuesOf(m, ks)[j] == m[ks[j]]
  {
    if j > 0 {
      ValuesOfIndex(m, ks[1..], j - 1);
    }
  }

  /** The values of two lists one after the other are the values of their concatenation. */
  lemma {:induction false} ValuesOfAppend(m: Store, a: seq<string>, b: seq<string>)
    requires AllStored(m, a) && AllStored(m, b)
    ensures AllStored(m, a + b)
    ensures ValuesOf(m, a + b) == ValuesOf(m, a) + ValuesOf(m, b)
  {
    if a != [] {
      assert (a + b)[1..] == a[1..] + b;
      ValuesOfAppend(m, a[1..], b);
    } else {
      assert a + b == b;
    }
  }

  /**
   * The key that getSingleKeyMatchingPrefix reconstructs for value `v`: the first key in `ks`
   * stored with value `v`, or `dflt` when no key in `ks` has it.
   */
  function FirstWith(m: Store, ks: seq<string>, v: string, dflt: string): (r: string)
    requires AllStored(m, ks)
    ensures v in ValuesOf(m, ks) ==> r in ks && m[r] == v
    ensures v !in ValuesOf(m, ks) ==> r == dflt
  {
    if ks == [] then dflt
    else
      if m[ks[0]] == v then ks[0] else FirstWith(m, ks[1..], v, dflt)
  }

  /** FirstWith picks the earliest key with the value, however the list continues. */
  lemma {:induction false} FirstWithIsFirst(m: Store, ks: seq<string>, v: string, dflt: string, t: nat)
    requires AllStored(m, ks)
    requires t < |ks| && m[ks[t]] == v
    requires forall u | 0 <= u < t :: m[ks[u]] != v
    ensures FirstWith(m, ks, v, dflt) == ks[t]
  {
    if t > 0 {
      assert m[ks[0]] != v;
      FirstWithIsFirst(m, ks[1..], v, dflt, t - 1);
    }
  }

  /** FirstWith over a concatenation looks in the second part only when the first lacks the value. */
  lemma {:induction false} FirstWithAppend(m: Store, a: seq<string>, b: seq<string>, v: string, dflt: string)
    requires AllStored(m, a + b)
    ensures AllStored(m, a)
    ensures AllStored(m, b)
    ensures FirstWith(m, a + b, v, dflt)
         == if v in ValuesOf(m, a) then FirstWith(m, a, v, dflt) else FirstWith(m, b, v, dflt)
  {
    assert forall j | 0 <= j < |a| :: a[j] == (a + b)[j];
    assert forall j | 0 <= j < |b| :: b[j] == (a + b)[|a| + j];
    if a != [] {
      assert (a + b)[0] == a[0] && (a + b)[1..] == a[1..] + b;
      if m[a[0]] != v {
        FirstWithAppend(m, a[1..], b, v, dflt);
      }
    } else {
      assert a + b == b;
    }
  }

  /** Once the value occurs in the list, the fallback key plays no part. */
  lemma {:induction false} FirstWithFallback(m: Store, ks: seq<string>, v: string, d1: string, d2: string)
    requires AllStored(m, ks)
    requires v in ValuesOf(m, ks)
    ensures FirstWith(m, ks, v, d1) == FirstWith(m, ks, v, d2)
  {
    if m[ks[0]] != v {
      FirstWithFallback(m, ks[1..], v, d1, d2);
    }
  }

  /** The listed keys hold pairwise different values. */
  predicate DistinctValues(m: Store, ks: seq<string>)
    requires AllStored(m, ks)
  {
    forall i, j | 0 <= i < j < |ks| :: m[ks[i]] != m[ks[j]]
  }

  /** For each value of `vs`, in order, the key that FirstWith reconstructs from it. */
  function KeysFor(m: Store, ks: seq<string>, vs: seq<string>, dflt: string): (r: seq<string>)
    requires AllStored(m, ks)
    ensures |r| == |vs|
  {
    if vs == [] then [] else [FirstWith(m, ks, vs[0], dflt)] + KeysFor(m, ks, vs[1..], dflt)
  }

  /**
   * getKeysMatchingPrefix as written: for each listed key's value, in order, the key
   * reconstructed from that value.
   */
  function Reconstruct(m: Store, ks: seq<string>, dflt: string): seq<string>
    requires AllStored(m, ks)
  {
    KeysFor(m, ks, ValuesOf(m, ks), dflt)
  }

  lemma {:induction false} KeysForIndex(m: Store, ks: seq<string>, vs: seq<string>, dflt: string, t: int)
    requires AllStored(m, ks) && 0 <= t < |vs|
    ensures KeysFor(m, ks, vs, dflt)[t] == FirstWith(m, ks, vs[t], dflt)
  {
    if t > 0 {
      KeysForIndex(m, ks, vs[1..], dflt, t - 1);
    }
  }

  /** Position `t` of the reconstruction is the first key holding the value of key `t`. */
  lemma ReconstructIndex(m: Store, ks: seq<string>, dflt: string, t: int)
    requires AllStored(m, ks) && 0 <= t < |ks|
    ensures |Reconstruct(m, ks, dflt)| == |ks|
    ensures Reconstruct(m, ks, dflt)[t] == FirstWith(m, ks, m[ks[t]], dflt)
  {
    ValuesOfIndex(m, ks, t);
    KeysForIndex(m, ks, ValuesOf(m, ks), dflt, t);
  }

  /** With pairwise different values, reconstructing keys from values gives back the list. */
  lemma ReconstructDistinctValues(m: Store, ks: seq<string>, dflt: string)
    requires AllStored(m, ks)
    requires DistinctValues(m, ks)
    ensures Reconstruct(m, ks, dflt) == ks
  {
    forall t | 0 <= t < |ks|
      ensures Reconstruct(m, ks, dflt)[t] == ks[t]
    {
      ReconstructIndex(m, ks, dflt, t);
      FirstWithIsFirst(m, ks, m[ks[t]], dflt, t);
    }
  }

  /**
   * With two listed keys sharing a value, the later one is never reported: every value
   * that it holds is attributed to an earlier key.
   */
  lemma SharedValueLosesKey(m: Store, ks: seq<string>, dflt: string, t1: nat, t2: nat)
    requires AllStored(m, ks)
    requires Distinct(ks)
    requires t1 < t2 < |ks| && m[ks[t1]] == m[ks[t2]]
    ensures ks[t2] !in Reconstruct(m, ks, dflt)
    ensures Reconstruct(m, ks, dflt) != ks
  {
    var r := Reconstruct(m, ks, dflt);
    forall t | 0 <= t < |ks|
      ensures r[t] != ks[t2]
    {
      ReconstructIndex(m, ks, dflt, t);
      var v := m[ks[t]];
      var t0 := FirstIndexWith(m, ks, v, t);
      FirstWithIsFirst(m, ks, v, dflt, t0);
      assert t0 != t2 by {
        if m[ks[t2]] == v {
          assert m[ks[t1]] == v;
          assert t0 <= t1;
        }
      }
    }
    assert r[t2] != ks[t2];
  }

  /** The earliest position holding value `v`, given that position `t` holds it. */
  lemma {:induction false} FirstIndexWith(m: Store, ks: seq<string>, v: string, t: nat) returns (t0: nat)
    requires AllStored(m, ks)
    requires t < |ks| && m[ks[t]] == v
    ensures t0 <= t && m[ks[t0]] == v
    ensures forall u | 0 <= u < t0 :: m[ks[u]] != v
  {
    if t == 0 {
      t0 := 0;
    } else if m[ks[t - 1]] == v || exists u | 0 <= u < t - 1 :: m[ks[u]] == v {
      var t' := if m[ks[t - 1]] == v then t - 1 else var u :| 0 <= u < t - 1 && m[ks[u]] == v; u;
      t0 := FirstIndexWith(m, ks, v, t');
    } else {
      t0 := t;
    }
  }

  /** The distinct non-empty prefixes of a set of keys. */
  function NonEmptyPrefixes(keys: set<string>): set<string>
  {
    set k, n | k in keys && 1 <= n <= |k| :: k[..n]
  }

  /** The total length of the listed keys. */
  function SumLengths(ks: seq<string>): nat
  {
    if ks == [] then 0 else |ks[0]| + SumLengths(ks[1..])
  }

  /** The total length of a set of keys, each counted once. */
  ghost function SetSumLengths(keys: set<string>): nat
  {
    if keys == {} then 0
    else
      var k :| k in keys;
      |k| + SetSumLengths(keys - {k})
  }

  /** The set sum does not depend on which key is taken out first. */
  lemma {:induction false} SetSumLengthsRemove(keys: set<string>, y: string)
    requires y in keys
    ensures SetSumLengths(keys) == |y| + SetSumLengths(keys - {y})
    decreases |keys|
  {
    var k :| k in keys && SetSumLengths(keys) == |k| + SetSumLengths(keys - {k});
    if k != y {
      SetSumLengthsRemove(keys - {k}, y);
      SetSumLengthsRemove(keys - {y}, k);
      assert keys - {k} - {y} == keys - {y} - {k};
    }
  }

  /** Summing a list without repetitions sums its set. */
  lemma {:induction false} SumLengthsDistinct(ks: seq<string>)
    requires Distinct(ks)
    ensures SumLengths(ks) == SetSumLengths(set x | x in ks)
  {
    if ks != [] {
      var s := set x | x in ks;
      SumLengthsDistinct(ks[1..]);
      assert ks[0] !in ks[1..];
      assert s - {ks[0]} == set x | x in ks[1..];
      SetSumLengthsRemove(s, ks[0]);
    }
  }
}
