/**
 * The prefix tree of Trie.java: a map from DNA strings to string values, stored in a tree of
 * nodes with four child slots each (Trie.java:3-513).
 *
 * The abstract view of a trie is the ghost map `Contents` from keys to values. The ghost map
 * `Nodes` names every node of the tree by the key that spells the path from the root to it;
 * `Valid` ties both to the heap: child slots, parent links, values, the key counter, and the
 * rule that no node other than the root is dead (has neither a value nor a child).
 */
module PrefixTrie {
  import opened Wrappers
  import opened Alphabet
  import opened KeyWalk

  /** The one way a key argument can be refused: it contains a character that is not a base. */
  datatype KeyError = MalformedKey

  /** The key of a node's parent: the key without its last character. */
  function ParentKey(k: string): string
    requires k != ""
  {
    k[..|k| - 1]
  }

  /** The first `j + 1` characters of a key are the first `j` followed by character `j`. */
  lemma TakeOneMore(key: string, j: int)
    requires 0 <= j < |key|
    ensures key[..j + 1] == key[..j] + [key[j]]
  {
  }

  /** The parent key of a one-base extension is the key extended. */
  lemma ParentOfExtension(k: string, c: char)
    ensures ParentKey(k + [c]) == k
  {
    assert (k + [c])[..|k|] == k;
  }

  /** The slot arrays of the nodes of a tree. */
  ghost function SlotArrays(nodes: map<string, Node>): set<array<Node?>>
  {
    set k | k in nodes :: nodes[k].children
  }

  /** The slot array of each node is one of the slot arrays of its tree. */
  lemma SlotListed(nodes: map<string, Node>, k: string)
    requires k in nodes
    ensures nodes[k] in nodes.Values && nodes[k].children in SlotArrays(nodes)
  {
  }

  /** A new node with empty slots and no value, hanging from `parent`: `new Node()` then setParent. */
  method NewLeaf(parent: Node) returns (child: Node)
    ensures fresh(child) && fresh(child.children) && child.parent == parent && child.value == None
    ensures child.children.Length == 4 && forall i | 0 <= i < 4 :: child.children[i] == null
  {
    child := new Node();
    child.parent := parent;
  }

  /** Cuts the link between a child and its parent both ways: setParent(null), then setChild(i, null). */
  method Unhook(child: Node, parent: Node, i: int)
    requires 0 <= i < parent.children.Length
    modifies child`parent, parent.children
    ensures child.parent == null
    ensures forall j | 0 <= j < parent.children.Length ::
              parent.children[j] == if j == i then null else old(parent.children[j])
  {
    child.parent := null;
    parent.SetChildAt(i, null);
  }

  /** A node of the tree (Trie.java:9-81). */
  class Node {
    /** The node this one hangs from; a back link used only when pruning after a removal. */
    var parent: Node?
    /** The four child slots, one per base in the order of `Bases`. */
    const children: array<Node?>
    /** The value stored under the key that leads to this node, if any. */
    var value: Option<string>

    constructor ()
      ensures parent == null && value == None
      ensures fresh(children) && children.Length == 4
      ensures forall i | 0 <= i < children.Length :: children[i] == null
    {
      parent := null;
      children := new Node?[4](_ => null);
      value := None;
    }

    predicate HasValue()
      reads this
    {
      value.Some?
    }

    /** Some child slot is filled. */
    ghost predicate Occupied()
      reads children
    {
      exists i | 0 <= i < children.Length :: children[i] != null
    }

    /** hasChildren: looks for an occupied slot. */
    method HasChildren() returns (b: bool)
      ensures b <==> Occupied()
    {
      for i := 0 to children.Length
        invariant forall j | 0 <= j < i :: children[j] == null
      {
        if children[i] != null {
          return true;
        }
      }
      return false;
    }

    /** setChild(char, Node): fills the slot of base `c` and hands back the node put there. */
    method SetChild(c: char, newNode: Node?) returns (r: Node?)
      requires Index(c).Some? && children.Length == 4
      modifies children
      ensures forall j | 0 <= j < children.Length ::
                children[j] == if j == Index(c).value then newNode else old(children[j])
      ensures r == newNode
    {
      children[Index(c).value] := newNode;
      r := newNode;
    }

    /**
     * put's "build new node if path doesn't exist": a new node with empty slots, hanging from this
     * one in the slot of base `c`.
     */
    method Graft(c: char) returns (child: Node)
      requires Index(c).Some? && children.Length == 4
      modifies children
      ensures fresh(child) && fresh(child.children) && child.parent == this && child.value == None
      ensures child.children.Length == 4 && forall i | 0 <= i < 4 :: child.children[i] == null
      ensures forall j | 0 <= j < 4 :: children[j] == if j == Index(c).value then child else old(children[j])
    {
      child := NewLeaf(this);
      var _ := SetChild(c, child);
    }

    /** setChild(int, Node): fills slot `i`. */
    method SetChildAt(i: int, child: Node?)
      requires 0 <= i < children.Length
      modifies children
      ensures forall j | 0 <= j < children.Length ::
                children[j] == if j == i then child else old(children[j])
    {
      children[i] := child;
    }
  }

  /** The trie (Trie.java:3-7, 83-513). */
  class Trie {
    /** The number of stored keys. */
    var size: int
    /** The node of the empty key; it is never replaced and never pruned. */
    const root: Node

    /** The stored keys and their values. */
    ghost var Contents: Store
    /** Every node of the tree, under the key that leads to it from the root. */
    ghost var Nodes: map<string, Node>
    /** No node lies deeper than this; it bounds the recursive walks. */
    ghost var Height: nat
    /** The key of each node and slot array of the tree (other entries are stale and unused). */
    ghost var Owner: map<object?, string>

    /** The objects this trie is made of: itself, its nodes and their slot arrays. */
    ghost function Repr(): set<object>
      reads this`Nodes
    {
      var nodes: set<object> := Nodes.Values;
      var slots: set<object> := Slots();
      {this} + nodes + slots
    }

    /** The child-slot arrays of all nodes. */
    ghost function Slots(): set<array<Node?>>
      reads this`Nodes
    {
      SlotArrays(Nodes)
    }

    /**
     * The shape of the tree as a set of paths: the root sits at the empty key, and every key of a
     * node extends the key of another node by one base.
     */
    ghost predicate Shape()
      reads this`Nodes, this`Height
    {
      && "" in Nodes && Nodes[""] == root
      && (forall k | k in Nodes :: Nodes[k].children.Length == 4 && |k| <= Height)
      && (forall k | k in Nodes && k != "" :: ParentKey(k) in Nodes)
      && (forall k | k in Nodes && k != "" :: k[|k| - 1] in Bases)
    }

    /**
     * `Owner` maps each node and each slot array back to its key, so different keys lead to
     * different nodes, with different slot arrays.
     */
    ghost predicate OwnedOnce()
      reads this`Nodes, this`Owner
    {
      forall k | k in Nodes ::
        && Nodes[k] in Owner && Owner[Nodes[k]] == k
        && Nodes[k].children in Owner && Owner[Nodes[k].children] == k
    }

    /** Every node but the root links back to the node of its parent key. */
    ghost predicate ParentLinks()
      reads this`Nodes, Nodes.Values`parent
    {
      && "" in Nodes && Nodes[""].parent == null
      && (forall k {:trigger Nodes[k].parent} | k in Nodes && k != "" ::
            ParentKey(k) in Nodes && Nodes[k].parent == Nodes[ParentKey(k)])
    }

    /** Slot `i` of the node at `k` holds the node at `k` extended by base `i`, or null if there is none. */
    ghost predicate ChildLinks()
      reads this`Nodes, Slots()
    {
      forall k, i {:trigger Nodes[k].children[i]} | k in Nodes && 0 <= i < 4 && i < Nodes[k].children.Length ::
        Nodes[k].children[i] == if k + [Bases[i]] in Nodes then Nodes[k + [Bases[i]]] else null
    }

    /** The tree shape: slots, parent links and node identities agree with `Nodes`. */
    ghost predicate Linked()
      reads this`Nodes, this`Height, this`Owner, Nodes.Values`parent, Slots()
    {
      Shape() && OwnedOnce() && ParentLinks() && ChildLinks()
    }

    /** No node but the root and `spare` is dead: each holds a value or has a child. */
    ghost predicate Pruned(spare: string)
      reads this`Nodes, Nodes.Values`value, Slots()
    {
      forall k {:trigger Nodes[k].value} | k in Nodes && k != "" && k != spare ::
        Nodes[k].value.Some? || Nodes[k].Occupied()
    }

    /** The node values are `Contents`, and `size` counts them. */
    ghost predicate Abstracts()
      reads this`Nodes, this`Contents, this`size, Nodes.Values`value
    {
      && (forall k {:trigger k in Contents} {:trigger Nodes[k].value} ::
            k in Contents <==> k in Nodes && Nodes[k].value.Some?)
      && (forall k | k in Contents :: k in Nodes && Contents[k] == Nodes[k].value.value)
      && size == |Contents|
    }

    /** hasValue on the node at `k` tells whether `k` is a stored key, and the value is the stored one. */
    lemma HasValueStored(k: string)
      requires Abstracts() && k in Nodes
      ensures Nodes[k].HasValue() <==> k in Contents
      ensures Nodes[k].HasValue() ==> Lookup(Contents, k) == Nodes[k].value
    {
    }

    /** The invariant, except that the node at `spare` may be dead for now. */
    ghost predicate ValidExcept(spare: string)
      reads this, Nodes.Values, Slots()
    {
      Linked() && Pruned(spare) && Abstracts()
    }

    ghost predicate Valid()
      reads this, Nodes.Values, Slots()
    {
      ValidExcept("")
    }

    /** The node at key `k`, or null when the path for `k` is missing. */
    ghost function NodeAt(k: string): Node?
      reads this
    {
      if k in Nodes then Nodes[k] else null
    }

    /** Trie(): an empty trie, holding only the root. */
    constructor ()
      ensures Valid() && fresh(Repr())
      ensures Contents == map[]
    {
      size := 0;
      root := new Node();
      Contents := map[];
      Height := 0;
      new;
      Nodes := map["" := root];
      Owner := map[root := "", root.children := ""];
      Planted();
    }

    /** A tree of the root alone, with no value and empty slots, is valid and holds no key. */
    lemma Planted()
      requires Nodes == map["" := root] && Owner == map[root := "", root.children := ""]
      requires root.parent == null && root.value == None
      requires root.children.Length == 4 && forall i | 0 <= i < 4 :: root.children[i] == null
      requires Contents == map[] && size == 0
      ensures Valid() && Repr() == {this, root, root.children}
    {
      assert Nodes.Keys == {""};
      assert Nodes.Values == {root} by {
        assert Nodes[""] in Nodes.Values;
      }
      assert Slots() == {root.children} by {
        SlotListed(Nodes, "");
      }
    }

    /** Every prefix of a node's key leads to a node. */
    lemma {:induction false} PrefixInNodes(k: string, n: nat)
      requires Linked()
      requires k in Nodes && n <= |k|
      ensures k[..n] in Nodes
      decreases |k| - n
    {
      if n < |k| {
        var up := ParentKey(k);
        assert k != "" && up in Nodes;
        PrefixInNodes(up, n);
        assert up[..n] == k[..n];
      } else {
        assert k[..n] == k;
      }
    }

    /** Every key of a node is a string of bases. */
    lemma {:induction false} NodeKeyValid(k: string)
      requires Shape() && k in Nodes
      ensures IsValidKey(k)
      decreases |k|
    {
      if k != "" {
        var up := ParentKey(k);
        assert up in Nodes;
        NodeKeyValid(up);
        assert k == up + [k[|k| - 1]];
      }
    }

    /** Every stored key is a string of bases. */
    lemma ContentsValid()
      requires Shape() && Abstracts()
      ensures ValidKeys(Contents)
    {
      forall x | x in Contents
        ensures IsValidKey(x)
      {
        NodeKeyValid(x);
      }
    }

    /** Every stored key extending `k` passes through the node at `k`. */
    lemma KeysBelowNode(k: string)
      requires Linked() && Abstracts()
      ensures forall x | x in Contents && k <= x :: k in Nodes
    {
      forall x | x in Contents && k <= x
        ensures k in Nodes
      {
        assert x[..|k|] == k;
        PrefixInNodes(x, |k|);
      }
    }

    /** Under a missing path there are no stored keys, so the walk from it is empty. */
    lemma AbsentBelow(k: string)
      requires Linked() && Abstracts()
      requires k !in Nodes
      ensures forall x | x in Contents :: !(k <= x)
      ensures Walk(Contents, k, Height) == []
    {
      KeysBelowNode(k);
      WalkEmpty(Contents, k, Height);
    }

    /** size(): the number of stored keys. */
    method Size() returns (n: int)
      requires Valid()
      ensures n == |Contents|
    {
      return size;
    }

    /** isEmpty(): whether no key is stored. */
    method IsEmpty() returns (empty: bool)
      requires Valid()
      ensures empty <==> Contents == map[]
    {
      if size == 0 {
        assert Contents.Keys == {};
        return true;
      }
      return false;
    }

    /**
     * The walk down a key shared by get, remove and the prefix queries: follows the slot of each
     * character from the root and gives up at the first empty slot.
     */
    method Find(key: string) returns (current: Node?)
      requires Linked() && IsValidKey(key)
      ensures current == NodeAt(key)
    {
      current := root;
      for j := 0 to |key|
        invariant key[..j] in Nodes && Nodes[key[..j]] == current
      {
        var index := Index(key[j]).value;
        TakeOneMore(key, j);
        if current.children[index] != null {
          current := current.children[index];
        } else {
          if key in Nodes {
            PrefixInNodes(key, j + 1);
          }
          return null;
        }
      }
      assert key[..|key|] == key;
    }

    /** get: the value at the end of the key's path; a missing path means the key is absent. */
    method Get(key: string) returns (r: Result<Option<string>, KeyError>)
      requires Valid()
      ensures r == if IsValidKey(key) then Success(Lookup(Contents, key)) else Failure(MalformedKey)
    {
      if !IsValidKey(key) {
        return Failure(MalformedKey);
      }
      var current := Find(key);
      if current == null {
        AbsentBelow(key);
        return Success(None);
      }
      return Success(current.value);
    }

    /** Adding a fresh leaf below `k` keeps the shape, with the new key in place. */
    twostate lemma AddedShape(new k: string, new c: char, new child: Node)
      requires old(Shape()) && old(k in Nodes) && c in Bases && |k| + 1 <= Height
      requires Height >= old(Height) && Nodes == old(Nodes)[k + [c] := child]
      requires child.children.Length == 4
      ensures Shape()
    {
      ParentOfExtension(k, c);
    }

    /** A fresh leaf and its fresh slot array are owned by the new key only. */
    twostate lemma AddedOwnedOnce(new k: string, new c: char, new child: Node)
      requires old(OwnedOnce()) && old(k + [c] !in Nodes)
      requires Nodes == old(Nodes)[k + [c] := child]
      requires Owner == old(Owner)[child := k + [c]][child.children := k + [c]]
      requires fresh(child) && fresh(child.children)
      ensures OwnedOnce()
    {
    }

    /** The fresh leaf links back to the node it hangs from; no other parent link moves. */
    twostate lemma AddedParentLinks(new k: string, new c: char, new child: Node)
      requires old(ParentLinks()) && old(k in Nodes) && old(k + [c] !in Nodes)
      requires Nodes == old(Nodes)[k + [c] := child]
      requires fresh(child) && child.parent == old(Nodes[k])
      requires forall n: Node | old(allocated(n)) :: n.parent == old(n.parent)
      ensures ParentLinks()
    {
      ParentOfExtension(k, c);
      forall k' | k' in Nodes && k' != ""
        ensures ParentKey(k') in Nodes && Nodes[k'].parent == Nodes[ParentKey(k')]
      {
        if k' != k + [c] {
          assert old(ParentKey(k') in Nodes && Nodes[k'].parent == Nodes[ParentKey(k')]);
        }
      }
    }

    /** Adding the fresh leaf keeps every child slot in step with `Nodes`. */
    twostate lemma AddedChildLinks(new k: string, new c: char, new child: Node)
      requires old(Shape()) && old(OwnedOnce()) && old(ChildLinks()) && old(k in Nodes) && old(k + [c] !in Nodes)
      requires c in Bases
      requires Nodes == old(Nodes)[k + [c] := child]
      requires child.children.Length == 4 && forall j | 0 <= j < 4 :: child.children[j] == null
      requires forall a: array<Node?>, i | old(allocated(a)) && a != old(Nodes[k]).children && 0 <= i < a.Length :: a[i] == old(a[i])
      requires forall j | 0 <= j < 4 ::
                 old(Nodes[k]).children[j] == if j == Index(c).value then child else old(Nodes[k].children[j])
      ensures ChildLinks()
    {
      forall k', i | k' in Nodes && 0 <= i < 4 && i < Nodes[k'].children.Length
        ensures Nodes[k'].children[i] == if k' + [Bases[i]] in Nodes then Nodes[k' + [Bases[i]]] else null
      {
        ParentOfExtension(k, c);
        ParentOfExtension(k', Bases[i]);
        if k' == k + [c] {
          ParentOfExtension(k + [c], Bases[i]);
          assert k' + [Bases[i]] !in old(Nodes);
        } else {
          assert old(Nodes[k'].children[i]) == if k' + [Bases[i]] in old(Nodes) then old(Nodes[k' + [Bases[i]]]) else null;
        }
      }
    }

    /** The node at `k` now has a child, so only the fresh leaf may be dead. */
    twostate lemma AddedPruned(new k: string, new c: char, new child: Node)
      requires old(Pruned(k)) && old(OwnedOnce()) && old(k in Nodes) && old(k + [c] !in Nodes) && c in Bases
      requires Nodes == old(Nodes)[k + [c] := child] && fresh(child)
      requires forall n: Node | old(allocated(n)) :: n.value == old(n.value)
      requires forall a: array<Node?>, i | old(allocated(a)) && a != old(Nodes[k]).children && 0 <= i < a.Length :: a[i] == old(a[i])
      requires old(Nodes[k]).children.Length == 4
      requires old(Nodes[k]).children[Index(c).value] == child
      ensures Pruned(k + [c])
    {
      forall k' | k' in Nodes && k' != "" && k' != k + [c]
        ensures Nodes[k'].value.Some? || Nodes[k'].Occupied()
      {
        if k' == k {
          assert Nodes[k'].children[Index(c).value] != null;
        } else {
          assert old(Nodes[k'].value.Some? || Nodes[k'].Occupied());
        }
      }
    }

    /** The fresh leaf holds no value, so the stored keys stay as they were. */
    twostate lemma AddedAbstracts(new k: string, new c: char, new child: Node)
      requires old(Abstracts()) && old(k + [c] !in Nodes)
      requires Contents == old(Contents) && size == old(size)
      requires Nodes == old(Nodes)[k + [c] := child]
      requires fresh(child) && child.value == None
      requires forall n: Node | old(allocated(n)) :: n.value == old(n.value)
      ensures Abstracts()
    {
      forall k' | k' in old(Nodes)
        ensures Nodes[k'].value == old(Nodes[k'].value)
      {
      }
    }

    /**
     * put's step "build new node if path doesn't exist": a fresh leaf with an empty slot array,
     * linked to the node at `k` both ways, keeps the invariant with the leaf as the one dead node.
     */
    twostate lemma ChildAdded(new k: string, new c: char, new child: Node)
      requires old(ValidExcept(k)) && old(k in Nodes) && old(k + [c] !in Nodes)
      requires c in Bases && |k| + 1 <= Height && Height >= old(Height)
      requires Contents == old(Contents) && size == old(size)
      requires Nodes == old(Nodes)[k + [c] := child]
      requires Owner == old(Owner)[child := k + [c]][child.children := k + [c]]
      requires fresh(child) && fresh(child.children)
      requires child.parent == old(Nodes[k]) && child.value == None
      requires child.children.Length == 4 && forall j | 0 <= j < 4 :: child.children[j] == null
      requires forall n: Node | old(allocated(n)) :: n.parent == old(n.parent)
      requires forall n: Node | old(allocated(n)) :: n.value == old(n.value)
      requires forall a: array<Node?>, i | old(allocated(a)) && a != old(Nodes[k]).children && 0 <= i < a.Length :: a[i] == old(a[i])
      requires forall j | 0 <= j < 4 ::
                 old(Nodes[k]).children[j] == if j == Index(c).value then child else old(Nodes[k].children[j])
      ensures ValidExcept(k + [c])
    {
      AddedShape(k, c, child);
      AddedOwnedOnce(k, c, child);
      AddedParentLinks(k, c, child);
      AddedChildLinks(k, c, child);
      AddedPruned(k, c, child);
      AddedAbstracts(k, c, child);
    }

    /** Storing a value at `k` makes that node alive, so no node but the root may be dead. */
    twostate lemma StoredPruned(new k: string)
      requires old(Pruned(k)) && Nodes == old(Nodes) && k in Nodes && Nodes[k].value.Some?
      requires forall n: Node | old(allocated(n)) && n != Nodes[k] :: n.value == old(n.value)
      requires forall a: array<Node?>, i | old(allocated(a)) && 0 <= i < a.Length :: a[i] == old(a[i])
      ensures Pruned("")
    {
      forall k' | k' in Nodes && k' != "" && k' != k
        ensures Nodes[k'].value.Some? || Nodes[k'].Occupied()
      {
        assert old(Nodes[k'].value.Some? || Nodes[k'].Occupied());
      }
    }

    /** Storing `v` at `k` is storing `v` under key `k`, and counts the key if it is new. */
    twostate lemma StoredAbstracts(new k: string, new v: string)
      requires old(Abstracts()) && old(OwnedOnce()) && Nodes == old(Nodes) && k in Nodes && Nodes[k].value == Some(v)
      requires forall n: Node | old(allocated(n)) && n != Nodes[k] :: n.value == old(n.value)
      requires Contents == old(Contents)[k := v]
      requires size == if k in old(Contents) then old(size) else old(size) + 1
      ensures Abstracts()
    {
      forall k' | k' in Nodes && k' != k
        ensures Nodes[k'].value == old(Nodes[k'].value)
      {
      }
    }

    /** Writing node values keeps the links, which do not depend on them. */
    twostate lemma LinksKept()
      requires old(Linked()) && Nodes == old(Nodes) && Owner == old(Owner) && Height == old(Height)
      requires forall n: Node | old(allocated(n)) :: n.parent == old(n.parent)
      requires forall a: array<Node?>, i | old(allocated(a)) && 0 <= i < a.Length :: a[i] == old(a[i])
      ensures Linked()
    {
      assert Nodes.Values == old(Nodes.Values);
    }

    /**
     * put's last step: the value written into the node at the end of the key path is the value
     * under that key, and the node is no longer dead.
     */
    twostate lemma Stored(new k: string, new v: string)
      requires old(ValidExcept(k))
      requires Nodes == old(Nodes) && Owner == old(Owner) && Height == old(Height)
      requires k in Nodes && Nodes[k].value == Some(v)
      requires forall n: Node | old(allocated(n)) :: n.parent == old(n.parent)
      requires forall n: Node | old(allocated(n)) && n != Nodes[k] :: n.value == old(n.value)
      requires forall a: array<Node?>, i | old(allocated(a)) && 0 <= i < a.Length :: a[i] == old(a[i])
      requires Contents == old(Contents)[k := v]
      requires size == if k in old(Contents) then old(size) else old(size) + 1
      ensures Valid()
    {
      LinksKept();
      StoredPruned(k);
      StoredAbstracts(k, v);
    }

    /** A node with a value or a child is not dead, so another node may take its place as the one allowed to be. */
    lemma Respare(s: string, s': string)
      requires Linked() && Pruned(s) && s in Nodes && (Nodes[s].value.Some? || Nodes[s].Occupied())
      ensures Pruned(s')
    {
    }

    /** Ghost bookkeeping: records new contents. */
    ghost method Record(contents: Store)
      modifies this`Contents
      ensures Contents == contents
    {
      Contents := contents;
    }

    /** Ghost bookkeeping: records a new naming of the nodes. */
    ghost method Relabel(nodes: map<string, Node>, owner: map<object?, string>)
      modifies this`Nodes, this`Owner
      ensures Nodes == nodes && Owner == owner
    {
      Nodes, Owner := nodes, owner;
    }

    /**
     * put's step "build new node if path doesn't exist": hangs a fresh leaf below the node at `k`
     * in the slot of base `c`, with its parent link, and hands it back; the depth bound grows to
     * cover the new leaf when it lies deeper.
     */
    method Extend(current: Node, ghost k: string, c: char) returns (child: Node)
      requires ValidExcept(k) && k in Nodes && Nodes[k] == current && k + [c] !in Nodes
      requires c in Bases
      modifies this`Nodes, this`Owner, this`Height, current.children
      ensures ValidExcept(k + [c])
      ensures Nodes == old(Nodes)[k + [c] := child] && fresh(child) && fresh(child.children)
      ensures child.children.Length == 4 && forall i | 0 <= i < 4 :: child.children[i] == null
      ensures Contents == old(Contents) && size == old(size)
    {
      child := current.Graft(c);
      Relabel(Nodes[k + [c] := child], Owner[child := k + [c]][child.children := k + [c]]);
      if Height < |k| + 1 {
        Height := |k| + 1;
      }
      ChildAdded(k, c, child);
    }

    /**
     * put's last step: writes the value into the node at the end of the key path and hands back
     * the value it replaces; only a key that was not stored before is counted.
     */
    method Assign(node: Node, ghost k: string, v: string) returns (previous: Option<string>)
      requires ValidExcept(k) && k in Nodes && Nodes[k] == node
      modifies this`size, this`Contents, node`value
      ensures Valid()
      ensures previous == Lookup(old(Contents), k)
      ensures Contents == old(Contents)[k := v]
      ensures size == if k in old(Contents) then old(size) else old(size) + 1
    {
      if node.HasValue() {
        previous := Replace(node, k, v);
      } else {
        Insert(node, k, v);
        previous := None;
      }
    }

    /** put on a stored key: the new value replaces the old one, which is handed back. */
    method Replace(node: Node, ghost k: string, v: string) returns (previous: Option<string>)
      requires ValidExcept(k) && k in Nodes && Nodes[k] == node && node.value.Some?
      modifies this`Contents, node`value
      ensures Valid()
      ensures previous == Lookup(old(Contents), k) && k in old(Contents)
      ensures Contents == old(Contents)[k := v]
    {
      previous := node.value;
      node.value := Some(v);
      Record(Contents[k := v]);
      Stored(k, v);
    }

    /** put on a key with no value yet: stores the value and counts one more key. */
    method Insert(node: Node, ghost k: string, v: string)
      requires ValidExcept(k) && k in Nodes && Nodes[k] == node && node.value.None?
      modifies this`size, this`Contents, node`value
      ensures Valid()
      ensures k !in old(Contents)
      ensures Contents == old(Contents)[k := v] && size == old(size) + 1
    {
      node.value := Some(v);
      size := size + 1;
      Record(Contents[k := v]);
      Stored(k, v);
    }

    /**
     * put's walk down the key: follows the slot of each character, creating the node when the
     * slot is empty, and hands back the node at the end of the key.
     */
    method Descend(key: string) returns (current: Node)
      requires Valid() && IsValidKey(key)
      modifies this`Nodes, this`Owner, this`Height, Slots()
      ensures ValidExcept(key) && key in Nodes && Nodes[key] == current
      ensures current in old(Nodes).Values || fresh(current)
      ensures fresh(Repr() - old(Repr()))
      ensures Contents == old(Contents) && size == old(size)
    {
      current := root;
      for j := 0 to |key|
        invariant key[..j] in Nodes && Nodes[key[..j]] == current
        invariant ValidExcept(key[..j])
        invariant fresh(Repr() - old(Repr()))
        invariant Contents == old(Contents) && size == old(size)
        invariant || Nodes == old(Nodes)
                  || (fresh(current) && fresh(current.children) && forall i | 0 <= i < 4 :: current.children[i] == null)
      {
        var index := Index(key[j]).value;
        TakeOneMore(key, j);
        if current.children[index] != null {
          Respare(key[..j], key[..j + 1]);
          current := current.children[index];
        } else {
          if Nodes == old(Nodes) {
            SlotListed(old(Nodes), key[..j]);
          }
          ghost var before := Repr();
          label Grafting:
          current := Extend(current, key[..j], key[j]);
          ReprAdded@Grafting(key[..j + 1], current);
          FreshGrown(before, current);
        }
      }
      assert key[..|key|] == key;
    }

    /** Adding the node `n` at a new key adds only `n` and its slot array to the tree's objects. */
    twostate lemma ReprAdded(new k: string, new n: Node)
      requires k !in old(Nodes) && Nodes == old(Nodes)[k := n]
      ensures Repr() <= old(Repr()) + {n, n.children}
    {
      forall o | o in Repr()
        ensures o in old(Repr()) + {n, n.children}
      {
        if o != this && o != n && o != n.children {
          var k' :| k' in Nodes && (o == Nodes[k'] || o == Nodes[k'].children);
          SlotListed(old(Nodes), k');
        }
      }
    }

    /** What was new in `before`, together with the fresh node `n` and its slot array, is all new. */
    twostate lemma FreshGrown(new before: set<object>, new n: Node)
      requires fresh(before - old(Repr()))
      requires Repr() <= before + {n, n.children} && fresh(n) && fresh(n.children)
      ensures fresh(Repr() - old(Repr()))
    {
    }

    /**
     * put: walks down the key, creating each missing node with its parent link, then stores the
     * value; a replaced value is handed back and leaves the count alone, a new key counts one more.
     */
    method Put(key: string, value: string) returns (r: Result<Option<string>, KeyError>)
      requires Valid()
      modifies Repr()
      ensures Valid()
      ensures r == if IsValidKey(key) then Success(Lookup(old(Contents), key)) else Failure(MalformedKey)
      ensures Contents == if IsValidKey(key) then old(Contents)[key := value] else old(Contents)
      ensures size == if IsValidKey(key) && key !in old(Contents) then old(size) + 1 else old(size)
      ensures fresh(Repr() - old(Repr()))
    {
      if !IsValidKey(key) {
        return Failure(MalformedKey);
      }
      if key == "" {
        var previous := Assign(root, key, value);
        return Success(previous);
      }
      var current := Descend(key);
      var previous := Assign(current, key, value);
      return Success(previous);
    }

    /** Clearing the value at `k` may leave that node dead, but no other. */
    twostate lemma ClearedPruned(new k: string)
      requires old(Pruned("")) && old(OwnedOnce()) && Nodes == old(Nodes) && k in Nodes
      requires forall n: Node | old(allocated(n)) && n != Nodes[k] :: n.value == old(n.value)
      requires forall a: array<Node?>, i | old(allocated(a)) && 0 <= i < a.Length :: a[i] == old(a[i])
      ensures Pruned(k)
    {
      forall k' | k' in Nodes && k' != "" && k' != k
        ensures Nodes[k'].value.Some? || Nodes[k'].Occupied()
      {
        assert old(Nodes[k'].value.Some? || Nodes[k'].Occupied());
      }
    }

    /** Clearing the value at `k` takes key `k` out of the stored keys and out of the count. */
    twostate lemma ClearedAbstracts(new k: string)
      requires old(Abstracts()) && old(OwnedOnce()) && Nodes == old(Nodes) && k in Nodes
      requires old(Nodes[k].value.Some?) && Nodes[k].value == None
      requires forall n: Node | old(allocated(n)) && n != Nodes[k] :: n.value == old(n.value)
      requires Contents == old(Contents) - {k} && size == old(size) - 1
      ensures Abstracts()
    {
      forall k' | k' in Nodes && k' != k
        ensures Nodes[k'].value == old(Nodes[k'].value)
      {
      }
      assert old(Contents).Keys == Contents.Keys + {k};
    }

    /** remove's first step: clearing the value at `k` unstores `k`, and at most that node is dead. */
    twostate lemma Cleared(new k: string)
      requires old(Valid())
      requires Nodes == old(Nodes) && Owner == old(Owner) && Height == old(Height)
      requires k in Nodes && old(Nodes[k].value.Some?) && Nodes[k].value == None
      requires forall n: Node | old(allocated(n)) :: n.parent == old(n.parent)
      requires forall n: Node | old(allocated(n)) && n != Nodes[k] :: n.value == old(n.value)
      requires forall a: array<Node?>, i | old(allocated(a)) && 0 <= i < a.Length :: a[i] == old(a[i])
      requires Contents == old(Contents) - {k} && size == old(size) - 1
      ensures ValidExcept(k)
    {
      LinksKept();
      ClearedPruned(k);
      ClearedAbstracts(k);
    }

    /**
     * remove's step "remove the key and decrement size": clears the value of the node at `k`.
     */
    method Unset(node: Node, ghost k: string)
      requires Valid() && k in Nodes && Nodes[k] == node && node.value.Some?
      modifies this`size, this`Contents, node`value
      ensures ValidExcept(k)
      ensures Contents == old(Contents) - {k} && size == old(size) - 1
    {
      node.value := None;
      size := size - 1;
      Record(Contents - {k});
      Cleared(k);
    }

    /** Without the dead leaf at `p` + [`c`], every other node still has its parent key in the tree. */
    twostate lemma DetachedShape(new p: string, new c: char)
      requires old(Shape()) && old(ChildLinks()) && old(p + [c] in Nodes)
      requires old(!Nodes[p + [c]].Occupied())
      requires Height == old(Height) && Nodes == old(Nodes) - {p + [c]}
      ensures Shape()
    {
      forall k | k in Nodes && k != ""
        ensures ParentKey(k) in Nodes
      {
        var i := Index(k[|k| - 1]).value;
        assert k == ParentKey(k) + [Bases[i]];
        assert old(Nodes[ParentKey(k)].children[i]) == old(Nodes[k]);
      }
    }

    /** No remaining node is the detached one, so their parent links stay. */
    twostate lemma DetachedParentLinks(new p: string, new c: char)
      requires old(ParentLinks()) && old(OwnedOnce()) && old(p + [c] in Nodes) && Shape()
      requires Nodes == old(Nodes) - {p + [c]} && Owner == old(Owner)
      requires forall n: Node | old(allocated(n)) && n != old(Nodes[p + [c]]) :: n.parent == old(n.parent)
      ensures ParentLinks()
    {
      forall k | k in Nodes && k != ""
        ensures Nodes[k].parent == Nodes[ParentKey(k)]
      {
        assert old(Nodes[k].parent == Nodes[ParentKey(k)]);
      }
    }

    /** With the detached leaf's slot emptied, every child slot is in step with `Nodes` again. */
    twostate lemma DetachedChildLinks(new p: string, new c: char)
      requires old(Shape()) && old(OwnedOnce()) && old(ChildLinks()) && old(p in Nodes) && old(p + [c] in Nodes)
      requires c in Bases
      requires Nodes == old(Nodes) - {p + [c]}
      requires forall a: array<Node?>, i | old(allocated(a)) && a != old(Nodes[p]).children && 0 <= i < a.Length :: a[i] == old(a[i])
      requires forall j | 0 <= j < 4 ::
                 old(Nodes[p]).children[j] == if j == Index(c).value then null else old(Nodes[p].children[j])
      ensures ChildLinks()
    {
      forall k, i | k in Nodes && 0 <= i < 4 && i < Nodes[k].children.Length
        ensures Nodes[k].children[i] == if k + [Bases[i]] in Nodes then Nodes[k + [Bases[i]]] else null
      {
        ParentOfExtension(p, c);
        ParentOfExtension(k, Bases[i]);
        assert old(Nodes[k].children[i]) == if k + [Bases[i]] in old(Nodes) then old(Nodes[k + [Bases[i]]]) else null;
      }
    }

    /** The parent of the detached leaf may now be dead; no other node is. */
    twostate lemma DetachedPruned(new p: string, new c: char)
      requires old(Pruned(p + [c])) && old(OwnedOnce()) && old(p in Nodes) && old(p + [c] in Nodes)
      requires Nodes == old(Nodes) - {p + [c]}
      requires forall n: Node | old(allocated(n)) :: n.value == old(n.value)
      requires forall a: array<Node?>, i | old(allocated(a)) && a != old(Nodes[p]).children && 0 <= i < a.Length :: a[i] == old(a[i])
      ensures Pruned(p)
    {
      forall k | k in Nodes && k != "" && k != p
        ensures Nodes[k].value.Some? || Nodes[k].Occupied()
      {
        assert old(Nodes[k].value.Some? || Nodes[k].Occupied());
      }
    }

    /** The detached leaf held no value, so the stored keys stay as they were. */
    twostate lemma DetachedAbstracts(new p: string, new c: char)
      requires old(Abstracts()) && old(p + [c] in Nodes) && old(Nodes[p + [c]].value.None?)
      requires Contents == old(Contents) && size == old(size)
      requires Nodes == old(Nodes) - {p + [c]}
      requires forall n: Node | old(allocated(n)) :: n.value == old(n.value)
      ensures Abstracts()
    {
      forall k | k in Nodes
        ensures Nodes[k].value == old(Nodes[k].value)
      {
      }
    }
    /**
     * remove's step "remove the node": a dead leaf cut off from its parent, both ways, leaves a
     * tree in which at most the parent is dead.
     */
    twostate lemma Detached(new p: string, new c: char)
      requires old(ValidExcept(p + [c])) && old(p in Nodes) && old(p + [c] in Nodes)
      requires old(Nodes[p + [c]].value.None?) && old(!Nodes[p + [c]].Occupied())
      requires Height == old(Height) && Owner == old(Owner) && Contents == old(Contents) && size == old(size)
      requires Nodes == old(Nodes) - {p + [c]}
      requires forall n: Node | old(allocated(n)) && n != old(Nodes[p + [c]]) :: n.parent == old(n.parent)
      requires forall n: Node | old(allocated(n)) :: n.value == old(n.value)
      requires forall a: array<Node?>, i | old(allocated(a)) && a != old(Nodes[p]).children && 0 <= i < a.Length :: a[i] == old(a[i])
      requires forall j | 0 <= j < 4 ::
                 old(Nodes[p]).children[j] == if j == Index(c).value then null else old(Nodes[p].children[j])
      ensures ValidExcept(p)
    {
      ParentOfExtension(p, c);
      DetachedShape(p, c);
      DetachedParentLinks(p, c);
      DetachedChildLinks(p, c);
      DetachedPruned(p, c);
      DetachedAbstracts(p, c);
    }

    /**
     * The nodes that left the tree since it held `orig` all have no parent: the ones that left
     * before, and the leaf at `s` that just did.
     */
    twostate lemma ParentsCleared(new orig: map<string, Node>, new leaf: Node, new s: string)
      requires forall k | k in orig :: old(allocated(orig[k]))
      requires forall k | k in old(Nodes) :: k in orig && orig[k] == old(Nodes)[k]
      requires forall k | k in orig && k !in old(Nodes) :: old(orig[k].parent) == null
      requires s in old(Nodes) && old(Nodes)[s] == leaf && Nodes == old(Nodes) - {s}
      requires leaf.parent == null
      requires forall n: Node | old(allocated(n)) && n != leaf :: n.parent == old(n.parent)
      ensures forall k | k in orig && k !in Nodes :: orig[k].parent == null
    {
    }

    /**
     * remove's step "remove the node": unhooks the dead leaf at `p` + [`c`] from its parent, clearing
     * both the leaf's parent link and the parent's slot for `c`, and hands back the parent.
     */
    method Detach(current: Node, ghost p: string, c: char, ghost orig: map<string, Node>) returns (parent: Node)
      requires ValidExcept(p + [c]) && p + [c] in Nodes && Nodes[p + [c]] == current
      requires current.value.None? && !current.Occupied()
      requires forall k | k in Nodes :: k in orig && orig[k] == Nodes[k]
      requires forall k | k in orig && k !in Nodes :: orig[k].parent == null
      modifies this`Nodes, this`Owner, current`parent, current.parent.children
      ensures ValidExcept(p) && p in Nodes && Nodes[p] == parent
      ensures Nodes == old(Nodes) - {p + [c]}
      ensures current.parent == null
      ensures forall k | k in orig && k !in Nodes :: orig[k].parent == null
    {
      ParentOfExtension(p, c);
      parent := current.parent;
      assert parent == Nodes[p];
      var i := Index(c).value;
      Relabel(Nodes - {p + [c]}, Owner);
      Unhook(current, parent, i);
      Detached(p, c);
      ParentsCleared(orig, current, p + [c]);
    }

    /** One turn of remove's walk back up: detaches the dead node at `key[..index + 1]`. */
    method Climb(node: Node, key: string, index: int, ghost orig: map<string, Node>) returns (parent: Node)
      requires 0 <= index < |key|
      requires ValidExcept(key[..index + 1]) && key[..index + 1] in Nodes && Nodes[key[..index + 1]] == node
      requires node.value.None? && !node.Occupied()
      requires forall k | k in Nodes :: k in orig && orig[k] == Nodes[k]
      requires forall k | k in orig && k !in Nodes :: orig[k].parent == null
      requires key[..index] in Nodes
      modifies this`Nodes, this`Owner, node`parent, Nodes[key[..index]].children
      ensures ValidExcept(key[..index]) && key[..index] in Nodes && Nodes[key[..index]] == parent
      ensures Nodes == old(Nodes) - {key[..index + 1]} && node.parent == null
      ensures forall k | k in Nodes :: k in orig && orig[k] == Nodes[k]
      ensures forall k | k in orig && k !in Nodes :: orig[k].parent == null
    {
      TakeOneMore(key, index);
      ParentOfExtension(key[..index], key[index]);
      parent := Detach(node, key[..index], key[index], orig);
    }

    /**
     * remove's walk back up: while the node reached is dead and is not the root, detaches it and
     * moves to its parent, one character of the key at a time.
     */
    method Prune(current: Node, key: string)
      requires ValidExcept(key) && key in Nodes && Nodes[key] == current
      modifies this`Nodes, this`Owner, Nodes.Values`parent, Slots()
      ensures Valid()
      ensures Nodes.Keys <= old(Nodes).Keys && Repr() <= old(Repr())
      ensures forall k | k in old(Nodes) && k !in Nodes :: old(Nodes)[k].parent == null
    {
      var node := current;
      var index := |key| - 1;
      var hasChildren := node.HasChildren();
      ghost var spare := key;
      assert key[..index + 1] == key;
      while !hasChildren && !node.HasValue() && index >= 0
        invariant -1 <= index < |key| && spare == key[..index + 1]
        invariant spare in Nodes && Nodes[spare] == node
        invariant ValidExcept(spare)
        invariant forall k | k in Nodes :: k in old(Nodes) && Nodes[k] == old(Nodes)[k]
        invariant hasChildren <==> node.Occupied()
        invariant forall k | k in old(Nodes) && k !in Nodes :: old(Nodes)[k].parent == null
        decreases index
      {
        TakeOneMore(key, index);
        ParentOfExtension(key[..index], key[index]);
        SlotListed(old(Nodes), spare);
        SlotListed(old(Nodes), key[..index]);
        node := Climb(node, key, index, old(Nodes));
        spare := key[..index];
        index := index - 1;
        hasChildren := node.HasChildren();
      }
      if index < 0 {
        assert spare == "";
      } else {
        Respare(spare, "");
      }
      ReprShrunk();
    }

    /**
     * remove's general case: clears the value at the end of the key's path, then prunes the nodes
     * that this leaves dead on the way back up.
     */
    method Erase(current: Node, key: string)
      requires Valid() && key in Nodes && Nodes[key] == current && current.value.Some?
      modifies this, Nodes.Values, Slots()
      ensures Valid()
      ensures Contents == old(Contents) - {key} && size == old(size) - 1
      ensures Repr() <= old(Repr())
    {
      Unset(current, key);
      Prune(current, key);
    }

    /** Keeping only some of the nodes, each at its old key, keeps only some of the tree's objects. */
    twostate lemma ReprShrunk()
      requires forall k | k in Nodes :: k in old(Nodes) && Nodes[k] == old(Nodes)[k]
      ensures Repr() <= old(Repr())
    {
      forall o | o in Repr()
        ensures o in old(Repr())
      {
        if o != this {
          var k :| k in Nodes && (o == Nodes[k] || o == Nodes[k].children);
          SlotListed(old(Nodes), k);
        }
      }
    }

    /**
     * remove: clears the value at the end of the key's path and prunes the nodes left dead; a
     * missing path or a node without a value means the key is absent, and nothing changes.
     */
    method Remove(key: string) returns (r: Result<Option<string>, KeyError>)
      requires Valid()
      modifies Repr()
      ensures Valid()
      ensures r == if IsValidKey(key) then Success(Lookup(old(Contents), key)) else Failure(MalformedKey)
      ensures Contents == if IsValidKey(key) then old(Contents) - {key} else old(Contents)
      ensures size == if IsValidKey(key) && key in old(Contents) then old(size) - 1 else old(size)
      ensures Repr() <= old(Repr())
    {
      if !IsValidKey(key) {
        return Failure(MalformedKey);
      }
      var current := Find(key);
      if current == null {
        AbsentBelow(key);
        RemoveAbsent(Contents, key);
        return Success(None);
      }
      if current == root && current.HasValue() {
        assert key == "" by {
          assert Owner[Nodes[key]] == key && Owner[Nodes[""]] == "";
        }
        var previous := root.value;
        Unset(root, key);
        return Success(previous);
      }
      if current.HasValue() {
        var previous := current.value;
        Erase(current, key);
        return Success(previous);
      }
      RemoveAbsent(Contents, key);
      return Success(None);
    }
  }
}
