/**
 * getKeysMatchingPrefix as written (Trie.java:299-344) rebuilds each key from its value, so two
 * stored keys under the prefix that hold the same value come back as the same key, and the
 * other one is lost. The corrected listing (TrieQueries.GetKeysMatchingPrefix) carries the keys
 * themselves; the two agree exactly when the values under the prefix are pairwise different.
 */
module ByValueFinding {
  import opened Alphabet
  import opened KeyWalk

  /**
   * Two different stored keys under the prefix that hold the same value: the reconstruction
   * misses one of them, so it differs from the walk.
   */
  lemma SharedValueMissesKey(m: Store, k: string, bound: int, x: string, y: string)
    requires ValidKeys(m)
    requires forall z | z in m :: |z| <= bound
    requires x in m && y in m && x != y && k <= x && k <= y && m[x] == m[y]
    ensures Reconstruct(m, Walk(m, k, bound), k) != Walk(m, k, bound)
    ensures x !in Reconstruct(m, Walk(m, k, bound), k) || y !in Reconstruct(m, Walk(m, k, bound), k)
  {
    var ks := Walk(m, k, bound);
    WalkIsKeysWithPrefix(m, k, bound);
    assert x in KeysWithPrefix(m, k) && y in KeysWithPrefix(m, k);
    var i :| 0 <= i < |ks| && ks[i] == x;
    var j :| 0 <= j < |ks| && ks[j] == y;
    if i < j {
      SharedValueLosesKey(m, ks, k, i, j);
    } else {
      SharedValueLosesKey(m, ks, k, j, i);
    }
  }

  /** Below the depth bound, the walk at `k` is `k` itself, then the walks of its four children. */
  lemma WalkNode(m: Store, k: string, bound: int)
    requires |k| < bound
    ensures Walk(m, k, bound)
         == Own(m, k) + (Walk(m, k + "A", bound) + Walk(m, k + "C", bound) + Walk(m, k + "G", bound) + Walk(m, k + "T", bound))
  {
    assert [Bases[0]] == "A" && [Bases[1]] == "C" && [Bases[2]] == "G" && [Bases[3]] == "T";
    var a, c, g, t := Walk(m, k + "A", bound), Walk(m, k + "C", bound), Walk(m, k + "G", bound), Walk(m, k + "T", bound);
    assert WalkChildren(m, k, bound, 1) == a;
    assert WalkChildren(m, k, bound, 2) == a + c;
    assert WalkChildren(m, k, bound, 3) == a + c + g;
    assert WalkChildren(m, k, bound, 4) == a + c + g + t;
  }

  /** A stored key that no other stored key extends is walked alone. */
  lemma WalkLeaf(m: Store, k: string, bound: int)
    requires k in m
    requires forall x | x in m && k <= x :: x == k
    ensures Walk(m, k, bound) == [k]
  {
    if |k| < bound {
      forall c | c in Bases
        ensures Walk(m, k + [c], bound) == []
      {
        WalkEmpty(m, k + [c], bound);
      }
      WalkNode(m, k, bound);
      assert "A" == ['A'] && "C" == ['C'] && "G" == ['G'] && "T" == ['T'];
    } else {
      assert WalkChildren(m, k, bound, 4) == [];
    }
  }

  /** With every stored key below `k` other than `k` itself below slot `j`, only that slot contributes. */
  lemma {:induction false} WalkChildrenOnly(m: Store, k: string, bound: int, j: nat, i: nat)
    requires i <= 4 && j < 4 && |k| < bound
    requires forall x | x in m && k <= x :: x == k || k + [Bases[j]] <= x
    ensures WalkChildren(m, k, bound, i) == if j < i then Walk(m, k + [Bases[j]], bound) else []
  {
    if i > 0 {
      WalkChildrenOnly(m, k, bound, j, i - 1);
      var before, here := WalkChildren(m, k, bound, i - 1), Walk(m, k + [Bases[i - 1]], bound);
      assert WalkChildren(m, k, bound, i) == before + here;
      if i - 1 == j {
        assert before == [];
      } else {
        OtherSlotEmpty(m, k, bound, j, i - 1);
        assert here == [];
      }
    }
  }

  /** Under the same condition, the walk below any other slot `d` of `k` is empty. */
  lemma OtherSlotEmpty(m: Store, k: string, bound: int, j: nat, d: nat)
    requires j < 4 && d < 4 && d != j
    requires forall x | x in m && k <= x :: x == k || k + [Bases[j]] <= x
    ensures Walk(m, k + [Bases[d]], bound) == []
  {
    BasesDistinct();
    forall x | x in m && k <= x && |k| < |x|
      ensures !(k + [Bases[d]] <= x)
    {
      PrefixStep(k, Bases[j], x);
      PrefixStep(k, Bases[d], x);
    }
    WalkEmpty(m, k + [Bases[d]], bound);
  }

  /** A node all of whose stored descendants lie below one child `kc`: the walk skips the other slots. */
  lemma WalkOnly(m: Store, k: string, bound: int, c: char, kc: string)
    requires c in Bases && |k| < bound && kc == k + [c]
    requires forall x | x in m && k <= x :: x == k || kc <= x
    ensures Walk(m, k, bound) == Own(m, k) + Walk(m, kc, bound)
  {
    var j :| 0 <= j < 4 && Bases[j] == c;
    WalkChildrenOnly(m, k, bound, j, 4);
  }

  /**
   * No stored key lies below `k` when each one is shorter than `k` or differs from it in the
   * first or the last character of `k`.
   */
  lemma WalkOff(m: Store, k: string, bound: int)
    requires k != ""
    requires forall x | x in m :: |x| < |k| || x[0] != k[0] || x[|k| - 1] != k[|k| - 1]
    ensures Walk(m, k, bound) == []
  {
    WalkEmpty(m, k, bound);
  }

  /** The counterexample's map. */
  function Example(): Store
  {
    map["AA" := "1", "AACT" := "2", "TCAG" := "2"]
  }

  /** Below "T" the counterexample holds only TCAG. */
  lemma ExampleWalkT(bound: int)
    requires bound >= 4
    ensures Walk(Example(), "T", bound) == ["TCAG"]
  {
    var m := Example();
    assert "TCAG"[..1] == "T" && "TCAG"[..2] == "TC" && "TCAG"[..3] == "TCA";
    assert "AA"[0] != 'T' && "AACT"[0] != 'T';
    WalkLeaf(m, "TCAG", bound);
    WalkOnly(m, "TCA", bound, 'G', "TCAG");
    WalkOnly(m, "TC", bound, 'A', "TCA");
    WalkOnly(m, "T", bound, 'C', "TC");
  }

  /** Below "A" the counterexample holds AA, then AACT. */
  lemma ExampleWalkA(bound: int)
    requires bound >= 4
    ensures Walk(Example(), "A", bound) == ["AA", "AACT"]
  {
    var m := Example();
    assert "AACT"[..2] == "AA" && "AACT"[..3] == "AAC" && "AA"[..1] == "A" && "AACT"[..1] == "A";
    assert "TCAG"[0] != 'A';
    WalkLeaf(m, "AACT", bound);
    WalkOnly(m, "AAC", bound, 'T', "AACT");
    WalkOnly(m, "AA", bound, 'C', "AAC");
    WalkOnly(m, "A", bound, 'A', "AA");
  }

  /** The three keys of the counterexample, in walk order. */
  lemma ExampleWalk(bound: int)
    requires bound >= 4
    ensures Walk(Example(), "", bound) == ["AA", "AACT", "TCAG"]
  {
    var m := Example();
    ExampleWalkT(bound);
    ExampleWalkA(bound);
    assert "" + "A" == "A" && "" + "C" == "C" && "" + "G" == "G" && "" + "T" == "T";
    WalkNode(m, "", bound);
    WalkOff(m, "C", bound);
    WalkOff(m, "G", bound);
  }

  /**
   * The keys "AA" -> "1", "AACT" -> "2", "TCAG" -> "2": listing all keys by value gives
   * AA, AACT, AACT, so TCAG is missing and AACT comes twice.
   */
  lemma ByValueCounterexample(bound: int)
    requires bound >= 4
    ensures Walk(Example(), "", bound) == ["AA", "AACT", "TCAG"]
    ensures Reconstruct(Example(), Walk(Example(), "", bound), "") == ["AA", "AACT", "AACT"]
  {
    var m := Example();
    var ks := ["AA", "AACT", "TCAG"];
    ExampleWalk(bound);
    ReconstructIndex(m, ks, "", 0);
    ReconstructIndex(m, ks, "", 1);
    ReconstructIndex(m, ks, "", 2);
    FirstWithIsFirst(m, ks, "1", "", 0);
    FirstWithIsFirst(m, ks, "2", "", 1);
  }
}
