/**
 * The unbalanced binary search tree of tree/src/binary.rs. The recursive helpers `add_rec`,
 * `find_rec` and `walk_rec` rebuild or inspect owned subtrees and are modelled as functions
 * on a `Tree` datatype; `BinarySearchTree` is a class whose `add` updates `root` and `length`.
 */
module BinarySearchTree {
  import opened Wrappers

  datatype Tree<V> = Leaf | Node(left: Tree<V>, key: int, value: V, right: Tree<V>)

  /** The keys stored in a tree. */
  function Keys<V>(t: Tree<V>): set<int>
  {
    match t
    case Leaf => {}
    case Node(l, k, _, r) => Keys(l) + {k} + Keys(r)
  }

  /** The number of nodes. */
  function Size<V>(t: Tree<V>): nat
  {
    match t
    case Leaf => 0
    case Node(l, _, _, r) => Size(l) + 1 + Size(r)
  }

  /** Smaller keys are in the left subtree, larger ones in the right, at every node. */
  ghost predicate IsBst<V>(t: Tree<V>)
  {
    match t
    case Leaf => true
    case Node(l, k, _, r) =>
      && IsBst(l) && IsBst(r)
      && (forall x :: x in Keys(l) ==> x < k)
      && (forall x :: x in Keys(r) ==> k < x)
  }

  /**
   * `add_rec`: descends by comparing keys, attaches a new leaf node where the descent falls
   * off the tree, and overwrites the value when the key is already there.
   */
  function AddRec<V>(t: Tree<V>, key: int, value: V): (r: Tree<V>)
    ensures Keys(r) == Keys(t) + {key}
    ensures IsBst(t) ==> IsBst(r)
    ensures r.Node?
  {
    match t
    case Leaf => Node(Leaf, key, value, Leaf)
    case Node(l, k, v, rt) =>
      if key < k then Node(AddRec(l, key, value), k, v, rt)
      else if key == k then Node(l, k, value, rt)
      else Node(l, k, v, AddRec(rt, key, value))
  }

  /** `find_rec`: the value stored under `target`, found by descending. */
  function FindRec<V>(t: Tree<V>, target: int): (r: Option<V>)
    ensures r.Some? ==> target in Keys(t)
  {
    match t
    case Leaf => None
    case Node(l, k, v, rt) =>
      if target < k then FindRec(l, target)
      else if target == k then Some(v)
      else FindRec(rt, target)
  }

  /** `walk_rec`: the `(key, value)` pairs handed to the callback, in the order it sees them. */
  function WalkRec<V>(t: Tree<V>): (r: seq<(int, V)>)
    ensures |r| == Size(t)
  {
    match t
    case Leaf => []
    case Node(l, k, v, rt) => WalkRec(l) + [(k, v)] + WalkRec(rt)
  }

  /** In a search tree, `find_rec` finds every key stored in it. */
  lemma {:induction false} FindRecComplete<V>(t: Tree<V>, target: int)
    requires IsBst(t)
    ensures FindRec(t, target).Some? <==> target in Keys(t)
  {
    match t
    case Leaf =>
    case Node(l, k, _, r) =>
      if target < k {
        FindRecComplete(l, target);
      } else if target > k {
        FindRecComplete(r, target);
      }
  }

  /** `find` after `add` of the same key returns the value just added. */
  lemma {:induction false} FindAfterAdd<V>(t: Tree<V>, key: int, value: V)
    ensures FindRec(AddRec(t, key, value), key) == Some(value)
  {
    match t
    case Leaf =>
    case Node(l, k, _, r) =>
      if key < k {
        FindAfterAdd(l, key, value);
      } else if key > k {
        FindAfterAdd(r, key, value);
      }
  }

  /** `add` changes what `find` returns for no other key. */
  lemma {:induction false} FindOtherAfterAdd<V>(t: Tree<V>, key: int, value: V, other: int)
    requires other != key
    ensures FindRec(AddRec(t, key, value), other) == FindRec(t, other)
  {
    match t
    case Leaf =>
    case Node(l, k, _, r) =>
      if key < k {
        FindOtherAfterAdd(l, key, value, other);
      } else if key > k {
        FindOtherAfterAdd(r, key, value, other);
      }
  }

  /** Adding a key already present adds no node; adding a new key adds exactly one. */
  lemma {:induction false} AddRecSize<V>(t: Tree<V>, key: int, value: V)
    requires IsBst(t)
    ensures key in Keys(t) ==> Size(AddRec(t, key, value)) == Size(t)
    ensures key !in Keys(t) ==> Size(AddRec(t, key, value)) == Size(t) + 1
  {
    match t
    case Leaf =>
    case Node(l, k, _, r) =>
      if key < k {
        assert key !in Keys(r);
        AddRecSize(l, key, value);
      } else if key > k {
        assert key !in Keys(l);
        AddRecSize(r, key, value);
      }
  }

  /** The keys `walk_rec` visits are exactly the stored keys. */
  lemma {:induction false} WalkRecKeys<V>(t: Tree<V>)
    ensures forall i :: 0 <= i < |WalkRec(t)| ==> WalkRec(t)[i].0 in Keys(t)
    ensures forall x :: x in Keys(t) ==> exists i :: 0 <= i < |WalkRec(t)| && WalkRec(t)[i].0 == x
  {
    match t
    case Leaf =>
    case Node(l, k, v, r) =>
      WalkRecKeys(l);
      WalkRecKeys(r);
      var w := WalkRec(t);
      var wl, wr := WalkRec(l), WalkRec(r);
      assert w == wl + [(k, v)] + wr;
      forall i | 0 <= i < |w|
        ensures w[i].0 in Keys(t)
      {
        if i < |wl| {
          assert w[i] == wl[i];
        } else if i > |wl| {
          assert w[i] == wr[i - |wl| - 1];
        }
      }
      forall x | x in Keys(t)
        ensures exists i :: 0 <= i < |WalkRec(t)| && WalkRec(t)[i].0 == x
      {
        var j: nat;
        if x in Keys(l) {
          var i :| 0 <= i < |wl| && wl[i].0 == x;
          j := i;
          assert w[j] == wl[i];
        } else if x == k {
          j := |wl|;
        } else {
          assert x in Keys(r);
          var i :| 0 <= i < |wr| && wr[i].0 == x;
          j := |wl| + 1 + i;
          assert w[j] == wr[i];
        }
        assert j < |WalkRec(t)| && WalkRec(t)[j].0 == x;
      }
  }

  /** In a search tree, `walk_rec` visits the keys in strictly ascending order. */
  lemma {:induction false} WalkRecSorted<V>(t: Tree<V>)
    requires IsBst(t)
    ensures forall i, j :: 0 <= i < j < |WalkRec(t)| ==> WalkRec(t)[i].0 < WalkRec(t)[j].0
  {
    match t
    case Leaf =>
    case Node(l, k, v, r) =>
      WalkRecSorted(l);
      WalkRecSorted(r);
      WalkRecKeys(l);
      WalkRecKeys(r);
      var w := WalkRec(t);
      var wl, wr := WalkRec(l), WalkRec(r);
      assert w == wl + [(k, v)] + wr;
      forall i, j | 0 <= i < j < |w|
        ensures w[i].0 < w[j].0
      {
        if j < |wl| {
          assert w[i] == wl[i] && w[j] == wl[j];
        } else if i > |wl| {
          assert w[i] == wr[i - |wl| - 1] && w[j] == wr[j - |wl| - 1];
        } else if i < |wl| {
          assert w[i] == wl[i] && wl[i].0 in Keys(l);
          if j > |wl| {
            assert w[j] == wr[j - |wl| - 1] && wr[j - |wl| - 1].0 in Keys(r);
          }
        } else {
          assert w[j] == wr[j - |wl| - 1] && wr[j - |wl| - 1].0 in Keys(r);
        }
      }
  }

  /** `find_rec` returns the value `walk_rec` pairs with the key. */
  lemma {:induction false} FindRecAgreesWithWalk<V>(t: Tree<V>, target: int)
    requires FindRec(t, target).Some?
    ensures exists i :: 0 <= i < |WalkRec(t)| && WalkRec(t)[i] == (target, FindRec(t, target).value)
  {
    match t
    case Leaf =>
    case Node(l, k, v, r) =>
      var w := WalkRec(t);
      var wl, wr := WalkRec(l), WalkRec(r);
      assert w == wl + [(k, v)] + wr;
      if target < k {
        FindRecAgreesWithWalk(l, target);
        var i :| 0 <= i < |wl| && wl[i] == (target, FindRec(l, target).value);
        assert w[i] == wl[i];
      } else if target == k {
        assert w[|wl|] == (k, v);
      } else {
        FindRecAgreesWithWalk(r, target);
        var i :| 0 <= i < |wr| && wr[i] == (target, FindRec(r, target).value);
        assert w[|wl| + 1 + i] == wr[i];
      }
  }

  /** In a search tree, every pair `walk_rec` visits is what `find_rec` returns for its key. */
  lemma {:induction false} WalkRecFind<V>(t: Tree<V>, i: nat)
    requires IsBst(t) && i < |WalkRec(t)|
    ensures FindRec(t, WalkRec(t)[i].0) == Some(WalkRec(t)[i].1)
  {
    match t
    case Leaf =>
    case Node(l, k, v, r) =>
      var w := WalkRec(t);
      var wl, wr := WalkRec(l), WalkRec(r);
      assert w == wl + [(k, v)] + wr;
      WalkRecKeys(l);
      WalkRecKeys(r);
      if i < |wl| {
        assert w[i] == wl[i] && wl[i].0 in Keys(l);
        WalkRecFind(l, i);
      } else if i > |wl| {
        assert w[i] == wr[i - |wl| - 1] && wr[i - |wl| - 1].0 in Keys(r);
        WalkRecFind(r, i - |wl| - 1);
      } else {
        assert w[i] == (k, v);
      }
  }

  class BinarySearchTree<V> {
    var root: Tree<V>
    var length: nat

    ghost predicate Valid()
      reads this
    {
      IsBst(root)
    }

    /** `BinarySearchTree::default`. */
    constructor ()
      ensures Valid() && root == Leaf && length == 0
    {
      root := Leaf;
      length := 0;
    }

    /**
     * `add`: `length` goes up on every call, even when the key was already present and no
     * node was added; the root becomes `add_rec` of the old root.
     */
    method Add(key: int, value: V)
      requires Valid()
      modifies this
      ensures Valid()
      ensures length == old(length) + 1
      ensures root == AddRec(old(root), key, value)
      ensures Keys(root) == Keys(old(root)) + {key}
      ensures Find(key) == Some(value)
      ensures forall other :: other != key ==> Find(other) == old(Find(other))
    {
      length := length + 1;
      ghost var before := root;
      root := AddRec(root, key, value);
      FindAfterAdd(before, key, value);
      forall other | other != key
        ensures FindRec(root, other) == FindRec(before, other)
      {
        FindOtherAfterAdd(before, key, value, other);
      }
    }

    /** `find`: the value stored under `target`, if any. */
    function Find(target: int): (r: Option<V>)
      reads this
      requires Valid()
      ensures r.Some? <==> target in Keys(root)
    {
      FindRecComplete(root, target);
      FindRec(root, target)
    }

    /**
     * `walk`: the pairs the callback receives, in order; the callback's own effects are not
     * part of the model.
     */
    method Walk() returns (visited: seq<(int, V)>)
      requires Valid()
      ensures |visited| == Size(root)
      ensures forall i, j :: 0 <= i < j < |visited| ==> visited[i].0 < visited[j].0
      ensures forall x :: x in Keys(root) <==> exists i :: 0 <= i < |visited| && visited[i].0 == x
      ensures forall i :: 0 <= i < |visited| ==> Find(visited[i].0) == Some(visited[i].1)
    {
      visited := WalkRec(root);
      WalkRecSorted(root);
      WalkRecKeys(root);
      forall i | 0 <= i < |visited|
        ensures FindRec(root, visited[i].0) == Some(visited[i].1)
      {
        WalkRecFind(root, i);
      }
    }
  }

  /** `add` of one key twice: `length` counts both calls, but the tree keeps one node. */
  method DuplicateAddScenario() returns (t: BinarySearchTree<int>)
    ensures t.Valid() && t.length == 2 && Size(t.root) == 1 && t.Find(5) == Some(2)
  {
    t := new BinarySearchTree();
    t.Add(5, 1);
    t.Add(5, 2);
    AddRecSize(AddRec(Leaf, 5, 1), 5, 2);
  }
}
