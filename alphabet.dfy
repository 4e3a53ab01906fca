/**
 * The four-letter alphabet of trie keys (Trie.java:466-498): a key is a string over
 * A, C, G and T, and each base owns one of a node's four child slots.
 */
module Alphabet {
  import opened Wrappers

  /** The bases in slot order: the child for base `Bases[i]` sits in slot `i`. */
  const Bases: string := "ACGT"

  /** isValidKey: scans the key and rejects it at the first character that is not a base. */
  function IsValidKey(key: string): (valid: bool)
    ensures valid <==> forall j :: 0 <= j < |key| ==> key[j] in Bases
  {
    if |key| == 0 then true
    else if key[0] != 'A' && key[0] != 'C' && key[0] != 'G' && key[0] != 'T' then false
    else IsValidKey(key[1..])
  }

  /** index(char): the slot of a base, or no slot (Java's null Integer) for any other character. */
  function Index(c: char): (slot: Option<int>)
    ensures slot.Some? <==> c in Bases
    ensures slot.Some? ==> 0 <= slot.value < 4 && Bases[slot.value] == c
  {
    if c == 'A' then Some(0)
    else if c == 'C' then Some(1)
    else if c == 'G' then Some(2)
    else if c == 'T' then Some(3)
    else None
  }

  /** index(int): the one-letter string of the base owning a slot, or none (Java's null) outside 0..3. */
  function Symbol(i: int): (s: Option<string>)
    ensures s.Some? <==> 0 <= i < 4
    ensures s.Some? ==> |s.value| == 1 && Index(s.value[0]) == Some(i)
  {
    if i == 0 then Some("A")
    else if i == 1 then Some("C")
    else if i == 2 then Some("G")
    else if i == 3 then Some("T")
    else None
  }

  /** The two mappings are inverse to each other on the four bases and the four slots. */
  lemma IndexSymbolInverse(c: char, i: int)
    ensures Index(c) == Some(i) <==> Symbol(i) == Some([c])
  {
  }
}
