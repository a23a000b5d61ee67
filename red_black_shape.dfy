/**
 * The shape of the red-black tree of tree/src/red_black.rs. The source keeps its nodes in
 * `Rc<RefCell<Node>>` cells linked both ways: a parent owns its children and a child holds
 * a weak reference to its parent. Here the cells are the entries of an arena, a
 * `seq<Node<V>>`, and a reference is an index into it, so that pointer identity (the source's
 * `is_left` compares addresses) is equality of indices.
 *
 * The arena alone does not say which cells form the tree; a `Shape` does. It is the tree of
 * indices the links describe, and `Linked` says that the `parent`, `left` and `right` fields
 * of the arena agree with it. Colours, keys and values are read from the arena. Everything
 * the insertion proof needs about shapes is here: where a subtree sits, how replacing it
 * changes the whole, and the red-black conditions of each case of `fix`.
 */
module RedBlackShape {
  import opened Wrappers
  import opened SortedPairs

  datatype Color = Red | Black

  /** A cell of the arena: the source's `Node`, with indices in place of references. */
  datatype Node<V> = Node(key: int, value: V, color: Color,
                          parent: Option<nat>, left: Option<nat>, right: Option<nat>)

  /** The tree of arena indices that the links describe. */
  datatype Shape = Nil | Fork(id: nat, left: Shape, right: Shape)

  /** The index of the root of a shape, the source's `Option<Rc<...>>` of a subtree. */
  function Root(t: Shape): Option<nat>
  {
    if t.Nil? then None else Some(t.id)
  }

  ghost function Ids(t: Shape): set<nat>
  {
    match t
    case Nil => {}
    case Fork(i, l, r) => {i} + Ids(l) + Ids(r)
  }

  /** No index occurs twice: the arena cells of a tree are distinct. */
  ghost predicate Distinct(t: Shape)
  {
    match t
    case Nil => true
    case Fork(i, l, r) =>
      && i !in Ids(l) && i !in Ids(r) && Ids(l) !! Ids(r)
      && Distinct(l) && Distinct(r)
  }

  /** The indices in order: left subtree, node, right subtree. */
  ghost function InOrder(t: Shape): seq<nat>
  {
    match t
    case Nil => []
    case Fork(i, l, r) => InOrder(l) + [i] + InOrder(r)
  }

  ghost predicate DistinctSeq(s: seq<nat>)
  {
    forall i, j :: 0 <= i < j < |s| ==> s[i] != s[j]
  }

  /** The links of the arena describe `t`, and the root of `t` has `parent` as its parent. */
  ghost predicate Linked<V>(t: Shape, parent: Option<nat>, nodes: seq<Node<V>>)
  {
    match t
    case Nil => true
    case Fork(i, l, r) =>
      && i < |nodes|
      && nodes[i].parent == parent && nodes[i].left == Root(l) && nodes[i].right == Root(r)
      && Linked(l, Some(i), nodes) && Linked(r, Some(i), nodes)
  }

  ghost predicate SameLinks<V>(a: Node<V>, b: Node<V>)
  {
    a.parent == b.parent && a.left == b.left && a.right == b.right
  }

  // ---------------------------------------------------------------------------------------
  // Indices, order and links
  // ---------------------------------------------------------------------------------------

  /** Two sequences without repeats and without common elements join into one without repeats. */
  lemma DistinctAppend(a: seq<nat>, b: seq<nat>)
    requires DistinctSeq(a) && DistinctSeq(b) && forall x :: x in a ==> x !in b
    ensures DistinctSeq(a + b)
  {
    forall i, j | 0 <= i < j < |a + b|
      ensures (a + b)[i] != (a + b)[j]
    {
      if j >= |a| && i < |a| {
        assert (a + b)[i] in a && (a + b)[j] == b[j - |a|];
      } else if i >= |a| {
        assert (a + b)[i] == b[i - |a|] && (a + b)[j] == b[j - |a|];
      }
    }
  }

  /** The in-order sequence lists exactly the indices of the shape, each once. */
  lemma {:induction false} InOrderIds(t: Shape)
    requires Distinct(t)
    ensures DistinctSeq(InOrder(t))
    ensures forall k :: k in InOrder(t) <==> k in Ids(t)
  {
    match t
    case Nil =>
    case Fork(i, l, r) =>
      InOrderIds(l);
      InOrderIds(r);
      DistinctAppend(InOrder(l), [i]);
      DistinctAppend(InOrder(l) + [i], InOrder(r));
  }

  /** Every index of a linked shape is a cell of the arena. */
  lemma {:induction false} LinkedBounds<V>(t: Shape, parent: Option<nat>, nodes: seq<Node<V>>)
    requires Linked(t, parent, nodes)
    ensures forall k :: k in Ids(t) ==> k < |nodes|
  {
    match t
    case Nil =>
    case Fork(i, l, r) =>
      LinkedBounds(l, Some(i), nodes);
      LinkedBounds(r, Some(i), nodes);
  }

  /** Links are all `Linked` reads: cells outside the shape, and data, may change freely. */
  lemma {:induction false} LinkedFrame<V>(t: Shape, parent: Option<nat>, a: seq<Node<V>>, b: seq<Node<V>>)
    requires Linked(t, parent, a)
    requires forall k :: k in Ids(t) ==> k < |a| && k < |b| && SameLinks(a[k], b[k])
    ensures Linked(t, parent, b)
  {
    match t
    case Nil =>
    case Fork(i, l, r) =>
      LinkedFrame(l, Some(i), a, b);
      LinkedFrame(r, Some(i), a, b);
  }

  /** The parent of a cell of the shape is the given parent at the root and inside otherwise. */
  lemma {:induction false} ParentInside<V>(t: Shape, parent: Option<nat>, nodes: seq<Node<V>>, n: nat)
    requires Linked(t, parent, nodes) && n in Ids(t)
    ensures n < |nodes|
    ensures Root(t) == Some(n) ==> nodes[n].parent == parent
    ensures Root(t) != Some(n) ==> nodes[n].parent.Some? && nodes[n].parent.value in Ids(t)
  {
    LinkedBounds(t, parent, nodes);
    match t
    case Fork(i, l, r) =>
      if i != n {
        if n in Ids(l) {
          ParentInside(l, Some(i), nodes, n);
        } else {
          ParentInside(r, Some(i), nodes, n);
        }
      }
  }

  /** In a whole tree, the only cell without a parent is the root. */
  lemma {:induction false} OrphanIsRoot<V>(t: Shape, nodes: seq<Node<V>>, n: nat)
    requires Linked(t, None, nodes) && n in Ids(t) && n < |nodes| && nodes[n].parent.None?
    ensures Root(t) == Some(n)
  {
    ParentInside(t, None, nodes, n);
  }

  // ---------------------------------------------------------------------------------------
  // Subtrees and their replacement
  // ---------------------------------------------------------------------------------------

  /** The subtree rooted at cell `n`. */
  ghost function SubtreeAt(t: Shape, n: nat): Shape
  {
    match t
    case Nil => Nil
    case Fork(i, l, r) =>
      if i == n then t
      else if n in Ids(l) then SubtreeAt(l, n)
      else SubtreeAt(r, n)
  }

  /** `t` with the subtree rooted at cell `n` replaced by `s`. */
  ghost function ReplaceAt(t: Shape, n: nat, s: Shape): Shape
  {
    match t
    case Nil => Nil
    case Fork(i, l, r) =>
      if i == n then s
      else if n in Ids(l) then Fork(i, ReplaceAt(l, n, s), r)
      else if n in Ids(r) then Fork(i, l, ReplaceAt(r, n, s))
      else t
  }

  lemma {:induction false} SubtreeAtIds(t: Shape, n: nat)
    requires n in Ids(t)
    ensures SubtreeAt(t, n).Fork? && SubtreeAt(t, n).id == n
    ensures Ids(SubtreeAt(t, n)) <= Ids(t)
    ensures Distinct(t) ==> Distinct(SubtreeAt(t, n))
  {
    match t
    case Fork(i, l, r) =>
      if i != n {
        if n in Ids(l) {
          SubtreeAtIds(l, n);
        } else {
          SubtreeAtIds(r, n);
        }
      }
  }

  /** A subtree is linked below the parent of its root. */
  lemma {:induction false} SubtreeLinked<V>(t: Shape, parent: Option<nat>, nodes: seq<Node<V>>, n: nat)
    requires Linked(t, parent, nodes) && n in Ids(t)
    ensures n < |nodes| && Linked(SubtreeAt(t, n), nodes[n].parent, nodes)
  {
    match t
    case Fork(i, l, r) =>
      if i != n {
        if n in Ids(l) {
          SubtreeLinked(l, Some(i), nodes, n);
        } else {
          SubtreeLinked(r, Some(i), nodes, n);
        }
      }
  }

  /** The left link of a cell of a linked tree leads to the root of its left subtree. */
  lemma LeftOfSubtree<V>(t: Shape, parent: Option<nat>, nodes: seq<Node<V>>, n: nat)
    ensures Linked(t, parent, nodes) && n in Ids(t) ==>
      && n < |nodes| && SubtreeAt(t, n).Fork?
      && nodes[n].left == Root(SubtreeAt(t, n).left)
  {
    if Linked(t, parent, nodes) && n in Ids(t) {
      SubtreeAtIds(t, n);
      SubtreeLinked(t, parent, nodes, n);
    }
  }

  /** The children of the subtree at `n` are the subtrees at the children of `n`. */
  lemma {:induction false} SubtreeChildren(t: Shape, n: nat)
    requires Distinct(t) && n in Ids(t)
    ensures var s := SubtreeAt(t, n);
      && s.Fork?
      && (s.left.Fork? ==> SubtreeAt(t, s.left.id) == s.left)
      && (s.right.Fork? ==> SubtreeAt(t, s.right.id) == s.right)
  {
    match t
    case Fork(i, l, r) =>
      SubtreeAtIds(t, n);
      if i == n {
        if l.Fork? {
          assert l.id in Ids(l);
          SubtreeAtRoot(l);
        }
        if r.Fork? {
          assert r.id in Ids(r);
          SubtreeAtRoot(r);
        }
      } else if n in Ids(l) {
        SubtreeChildren(l, n);
        SubtreeAtIds(l, n);
        var s := SubtreeAt(l, n);
        if s.left.Fork? {
          assert s.left.id in Ids(s);
        }
        if s.right.Fork? {
          assert s.right.id in Ids(s);
        }
      } else {
        SubtreeChildren(r, n);
        SubtreeAtIds(r, n);
        var s := SubtreeAt(r, n);
        if s.left.Fork? {
          assert s.left.id in Ids(s);
        }
        if s.right.Fork? {
          assert s.right.id in Ids(s);
        }
      }
  }

  lemma SubtreeAtRoot(t: Shape)
    requires t.Fork?
    ensures SubtreeAt(t, t.id) == t
  {
  }

  /**
   * The parent link of a cell leads to the cell one level up, of which the cell is the left
   * or the right child.
   */
  lemma {:induction false} ParentHasChild<V>(t: Shape, parent: Option<nat>, nodes: seq<Node<V>>, c: nat, g: nat)
    requires Linked(t, parent, nodes) && Distinct(t) && c in Ids(t) && c < |nodes| && nodes[c].parent == Some(g)
    requires Root(t) != Some(c)
    ensures g in Ids(t)
    ensures var s := SubtreeAt(t, g); s.Fork? && (Root(s.left) == Some(c) || Root(s.right) == Some(c))
  {
    match t
    case Fork(i, l, r) =>
      if c in Ids(l) {
        SubtreeAtIds(l, c);
        if Root(l) == Some(c) {
        } else {
          ParentHasChild(l, Some(i), nodes, c, g);
        }
      } else {
        SubtreeAtIds(r, c);
        if Root(r) == Some(c) {
        } else {
          ParentHasChild(r, Some(i), nodes, c, g);
        }
      }
  }

  /** Replacing a subtree by one on the same cells keeps the cells distinct. */
  lemma {:induction false} ReplaceIds(t: Shape, n: nat, s: Shape)
    requires Distinct(t) && n in Ids(t) && Distinct(s) && Ids(s) == Ids(SubtreeAt(t, n))
    ensures Ids(ReplaceAt(t, n, s)) == Ids(t) && Distinct(ReplaceAt(t, n, s))
    ensures Root(ReplaceAt(t, n, s)) == if Root(t) == Some(n) then Root(s) else Root(t)
  {
    match t
    case Fork(i, l, r) =>
      if i != n {
        if n in Ids(l) {
          SubtreeAtIds(l, n);
          ReplaceIds(l, n, s);
        } else {
          SubtreeAtIds(r, n);
          ReplaceIds(r, n, s);
        }
      }
  }

  /** Replacing a subtree by one with the same in-order cells keeps the in-order cells. */
  lemma {:induction false} ReplaceInOrder(t: Shape, n: nat, s: Shape)
    requires n in Ids(t) && InOrder(s) == InOrder(SubtreeAt(t, n))
    ensures InOrder(ReplaceAt(t, n, s)) == InOrder(t)
  {
    match t
    case Fork(i, l, r) =>
      if i != n {
        if n in Ids(l) {
          ReplaceInOrder(l, n, s);
        } else {
          ReplaceInOrder(r, n, s);
        }
      }
  }

  /**
   * The links of a whole tree after its subtree at `n` was rebuilt as `s`: `s` hangs from the
   * old parent of `n`, that parent points at the root of `s` where it pointed at `n`, and no
   * other cell of the tree changed its links.
   */
  lemma {:induction false} ReplaceLinked<V>(t: Shape, parent: Option<nat>, n: nat, s: Shape,
    a: seq<Node<V>>, b: seq<Node<V>>)
    requires Linked(t, parent, a) && Distinct(t) && n in Ids(t) && n < |a|
    requires Ids(s) == Ids(SubtreeAt(t, n)) && Distinct(s)
    requires Linked(s, a[n].parent, b)
    requires forall k :: k in Ids(t) && k !in Ids(s) && Some(k) != a[n].parent ==>
      k < |a| && k < |b| && SameLinks(a[k], b[k])
    requires a[n].parent.Some? && a[n].parent.value in Ids(t) ==>
      var q := a[n].parent.value;
      && q < |a| && q < |b| && b[q].parent == a[q].parent
      && b[q].left == (if a[q].left == Some(n) then Root(s) else a[q].left)
      && b[q].right == (if a[q].right == Some(n) then Root(s) else a[q].right)
    ensures Linked(ReplaceAt(t, n, s), parent, b)
  {
    LinkedBounds(t, parent, a);
    match t
    case Fork(i, l, r) =>
      if i == n {
      } else if n in Ids(l) {
        SubtreeAtIds(l, n);
        ParentInside(l, Some(i), a, n);
        ReplaceIds(l, n, s);
        ReplaceLinked(l, Some(i), n, s, a, b);
        LinkedFrame(r, Some(i), a, b);
      } else {
        SubtreeAtIds(r, n);
        ParentInside(r, Some(i), a, n);
        ReplaceIds(r, n, s);
        ReplaceLinked(r, Some(i), n, s, a, b);
        LinkedFrame(l, Some(i), a, b);
      }
  }

  // ---------------------------------------------------------------------------------------
  // Rotations of a shape
  // ---------------------------------------------------------------------------------------

  /** The shape `rotate_left` makes of a subtree: the right child moves up. */
  function RotL(t: Shape): Shape
  {
    match t
    case Fork(i, a, Fork(j, b, c)) => Fork(j, Fork(i, a, b), c)
    case _ => t
  }

  /** The shape `rotate_right` makes of a subtree: the left child moves up. */
  function RotR(t: Shape): Shape
  {
    match t
    case Fork(i, Fork(j, a, b), c) => Fork(j, a, Fork(i, b, c))
    case _ => t
  }

  /** A left rotation keeps the cells and their order. */
  lemma RotLKeeps(t: Shape)
    ensures InOrder(RotL(t)) == InOrder(t) && Ids(RotL(t)) == Ids(t)
    ensures Distinct(t) ==> Distinct(RotL(t))
  {
    if t.Fork? && t.right.Fork? {
      var Fork(i, a, Fork(j, b, c)) := t;
      var A, B, C := InOrder(a), InOrder(b), InOrder(c);
      assert InOrder(RotL(t)) == A + [i] + B + [j] + C;
      assert InOrder(t) == A + [i] + (B + [j] + C);
      assert Ids(RotL(t)) == {j} + ({i} + Ids(a) + Ids(b)) + Ids(c);
      if Distinct(t) {
        var r := Fork(j, b, c);
        assert Distinct(r) && i !in Ids(r) && Ids(a) !! Ids(r);
        assert j !in Ids(b) && j !in Ids(c) && Ids(b) !! Ids(c);
        assert Distinct(Fork(i, a, b)) && Ids(Fork(i, a, b)) !! Ids(c);
        assert j !in Ids(Fork(i, a, b)) && j !in Ids(c);
      }
    }
  }

  /** A right rotation keeps the cells and their order. */
  lemma RotRKeeps(t: Shape)
    ensures InOrder(RotR(t)) == InOrder(t) && Ids(RotR(t)) == Ids(t)
    ensures Distinct(t) ==> Distinct(RotR(t))
  {
    if t.Fork? && t.left.Fork? {
      var Fork(i, Fork(j, a, b), c) := t;
      assert InOrder(RotR(t)) == InOrder(a) + [j] + (InOrder(b) + [i] + InOrder(c));
      assert Ids(RotR(t)) == {j} + Ids(a) + ({i} + Ids(b) + Ids(c));
      if Distinct(t) {
        var l := Fork(j, a, b);
        assert Distinct(l) && i !in Ids(l) && Ids(l) !! Ids(c);
        assert j !in Ids(a) && j !in Ids(b) && Ids(a) !! Ids(b);
        assert Distinct(Fork(i, b, c)) && Ids(a) !! Ids(Fork(i, b, c));
        assert j !in Ids(a) && j !in Ids(Fork(i, b, c));
      }
    }
  }

  /** The whole tree after a left rotation at cell `n`. */
  ghost function RotateLeftAt(t: Shape, n: nat): Shape
  {
    ReplaceAt(t, n, RotL(SubtreeAt(t, n)))
  }

  /** The whole tree after a right rotation at cell `n`. */
  ghost function RotateRightAt(t: Shape, n: nat): Shape
  {
    ReplaceAt(t, n, RotR(SubtreeAt(t, n)))
  }

  /** A rotation anywhere in the tree keeps its cells and their order. */
  lemma {:induction false} RotateAtKeeps(t: Shape, n: nat)
    requires Distinct(t) && n in Ids(t)
    ensures InOrder(RotateLeftAt(t, n)) == InOrder(t) && InOrder(RotateRightAt(t, n)) == InOrder(t)
    ensures Ids(RotateLeftAt(t, n)) == Ids(t) && Distinct(RotateLeftAt(t, n))
    ensures Ids(RotateRightAt(t, n)) == Ids(t) && Distinct(RotateRightAt(t, n))
  {
    var s := SubtreeAt(t, n);
    SubtreeAtIds(t, n);
    RotLKeeps(s);
    RotRKeeps(s);
    ReplaceIds(t, n, RotL(s));
    ReplaceIds(t, n, RotR(s));
    ReplaceInOrder(t, n, RotL(s));
    ReplaceInOrder(t, n, RotR(s));
  }

  // ---------------------------------------------------------------------------------------
  // Colours: the red-black conditions
  // ---------------------------------------------------------------------------------------

  /** Cell `i` is red. An absent subtree counts as black, as in `validate`. */
  ghost predicate IsRed<V>(nodes: seq<Node<V>>, i: nat)
  {
    i < |nodes| && nodes[i].color == Red
  }

  ghost predicate RootRed<V>(t: Shape, nodes: seq<Node<V>>)
  {
    t.Fork? && IsRed(nodes, t.id)
  }

  /**
   * No red cell has a red parent, except possibly the cell `ex`. The root's parent counts
   * as red when `parentRed` holds: a whole tree is checked with `parentRed` set, as
   * `is_valid` does, so that a red root is a violation too.
   */
  ghost predicate RRFree<V>(t: Shape, parentRed: bool, ex: Option<nat>, nodes: seq<Node<V>>)
  {
    match t
    case Nil => true
    case Fork(i, l, r) =>
      && (parentRed && IsRed(nodes, i) ==> ex == Some(i))
      && RRFree(l, IsRed(nodes, i), ex, nodes)
      && RRFree(r, IsRed(nodes, i), ex, nodes)
  }

  /** The black cells on the left-most path, counting the absent subtree at its end as one. */
  ghost function BH<V>(t: Shape, nodes: seq<Node<V>>): nat
  {
    match t
    case Nil => 1
    case Fork(i, l, _) => (if IsRed(nodes, i) then 0 else 1) + BH(l, nodes)
  }

  /** Every path from a cell down to an absent subtree meets equally many black cells. */
  ghost predicate Balanced<V>(t: Shape, nodes: seq<Node<V>>)
  {
    match t
    case Nil => true
    case Fork(_, l, r) => Balanced(l, nodes) && Balanced(r, nodes) && BH(l, nodes) == BH(r, nodes)
  }

  /** Whether the parent of cell `n` is red, given whether the parent of the root is. */
  ghost function ParentRedOf<V>(t: Shape, n: nat, parentRed: bool, nodes: seq<Node<V>>): bool
  {
    match t
    case Nil => parentRed
    case Fork(i, l, r) =>
      if i == n then parentRed
      else if n in Ids(l) then ParentRedOf(l, n, IsRed(nodes, i), nodes)
      else ParentRedOf(r, n, IsRed(nodes, i), nodes)
  }

  ghost predicate SameColors<V>(t: Shape, a: seq<Node<V>>, b: seq<Node<V>>)
  {
    forall k :: k in Ids(t) ==> IsRed(a, k) == IsRed(b, k)
  }

  ghost predicate Outside(ex: Option<nat>, t: Shape)
  {
    ex.None? || ex.value !in Ids(t)
  }

  /** The colour conditions read only the colours of the cells of the shape. */
  lemma {:induction false} ColorFrame<V>(t: Shape, pr: bool, ex: Option<nat>, ex2: Option<nat>,
    a: seq<Node<V>>, b: seq<Node<V>>)
    requires SameColors(t, a, b)
    requires ex == ex2 || (Outside(ex, t) && Outside(ex2, t))
    ensures RRFree(t, pr, ex, a) == RRFree(t, pr, ex2, b)
    ensures BH(t, a) == BH(t, b) && Balanced(t, a) == Balanced(t, b)
  {
    match t
    case Nil =>
    case Fork(i, l, r) =>
      ColorFrame(l, IsRed(a, i), ex, ex2, a, b);
      ColorFrame(r, IsRed(a, i), ex, ex2, a, b);
  }

  /** A black parent allows more than a red one. */
  lemma RRFreeUnderBlack<V>(t: Shape, ex: Option<nat>, nodes: seq<Node<V>>)
    requires RRFree(t, true, ex, nodes)
    ensures RRFree(t, false, ex, nodes)
  {
  }

  /** Below a red parent, a subtree with a black root is as good as below a black one. */
  lemma RRFreeBlackRoot<V>(t: Shape, ex: Option<nat>, nodes: seq<Node<V>>)
    requires RRFree(t, false, ex, nodes) && !RootRed(t, nodes)
    ensures RRFree(t, true, ex, nodes)
  {
  }

  /**
   * A subtree whose only possible violation is at its root no longer has any once its
   * parent is black.
   */
  lemma {:induction false} ChildRelax<V>(t: Shape, pr: bool, cur: nat, ex2: Option<nat>,
    a: seq<Node<V>>, b: seq<Node<V>>)
    requires Distinct(t) && RRFree(t, pr, Some(cur), a)
    requires Root(t) == Some(cur) || cur !in Ids(t)
    requires SameColors(t, a, b) && Outside(ex2, t)
    ensures RRFree(t, false, ex2, b)
  {
    match t
    case Nil =>
    case Fork(i, l, r) =>
      ColorFrame(l, IsRed(a, i), Some(cur), ex2, a, b);
      ColorFrame(r, IsRed(a, i), Some(cur), ex2, a, b);
  }

  /**
   * Replacing a subtree keeps a tree free of red-red pairs, except at `ex2`, when the new
   * subtree is, below the parent colour the old one had, and nothing outside it changed.
   */
  lemma {:induction false} RRFreeReplace<V>(t: Shape, pr: bool, ex: Option<nat>, n: nat, s: Shape,
    ex2: Option<nat>, a: seq<Node<V>>, b: seq<Node<V>>)
    requires Distinct(t) && n in Ids(t) && Ids(s) == Ids(SubtreeAt(t, n))
    requires forall k :: k in Ids(t) && k !in Ids(s) ==> IsRed(a, k) == IsRed(b, k)
    requires !Outside(ex, s) || ex.None?
    requires !Outside(ex2, s) || ex2.None?
    requires RRFree(t, pr, ex, a)
    requires RRFree(s, ParentRedOf(t, n, pr, a), ex2, b)
    ensures RRFree(ReplaceAt(t, n, s), pr, ex2, b)
  {
    match t
    case Fork(i, l, r) =>
      if i != n {
        if n in Ids(l) {
          SubtreeAtIds(l, n);
          RRFreeReplace(l, IsRed(a, i), ex, n, s, ex2, a, b);
          ColorFrame(r, IsRed(a, i), ex, ex2, a, b);
        } else {
          SubtreeAtIds(r, n);
          RRFreeReplace(r, IsRed(a, i), ex, n, s, ex2, a, b);
          ColorFrame(l, IsRed(a, i), ex, ex2, a, b);
        }
      }
  }

  /**
   * Replacing a subtree by a balanced one of the same black height keeps a tree balanced
   * and its black height, when nothing outside the subtree changed colour.
   */
  lemma {:induction false} BalancedReplace<V>(t: Shape, n: nat, s: Shape, a: seq<Node<V>>, b: seq<Node<V>>)
    requires Distinct(t) && n in Ids(t) && Ids(s) == Ids(SubtreeAt(t, n))
    requires forall k :: k in Ids(t) && k !in Ids(s) ==> IsRed(a, k) == IsRed(b, k)
    requires Balanced(t, a) && Balanced(s, b) && BH(s, b) == BH(SubtreeAt(t, n), a)
    ensures Balanced(ReplaceAt(t, n, s), b) && BH(ReplaceAt(t, n, s), b) == BH(t, a)
  {
    match t
    case Fork(i, l, r) =>
      if i != n {
        if n in Ids(l) {
          SubtreeAtIds(l, n);
          BalancedReplace(l, n, s, a, b);
          ColorFrame(r, false, None, None, a, b);
        } else {
          SubtreeAtIds(r, n);
          BalancedReplace(r, n, s, a, b);
          ColorFrame(l, false, None, None, a, b);
        }
      }
  }

  /** `ParentRedOf` is the colour of the cell the parent link leads to. */
  lemma {:induction false} ParentRedLinked<V>(t: Shape, q: Option<nat>, pr: bool, nodes: seq<Node<V>>, c: nat)
    requires Linked(t, q, nodes) && c in Ids(t)
    requires q.Some? ==> pr == IsRed(nodes, q.value)
    ensures c < |nodes|
    ensures ParentRedOf(t, c, pr, nodes) == if nodes[c].parent.Some? then IsRed(nodes, nodes[c].parent.value) else pr
  {
    ParentInside(t, q, nodes, c);
    match t
    case Fork(i, l, r) =>
      if i != c {
        if c in Ids(l) {
          ParentRedLinked(l, Some(i), IsRed(nodes, i), nodes, c);
        } else {
          ParentRedLinked(r, Some(i), IsRed(nodes, i), nodes, c);
        }
      }
  }

  /** A violation allowed at a cell whose parent is black is no violation. */
  lemma {:induction false} NoViolationBelowBlack<V>(t: Shape, pr: bool, c: nat, nodes: seq<Node<V>>)
    requires Distinct(t) && c in Ids(t) && RRFree(t, pr, Some(c), nodes)
    requires !ParentRedOf(t, c, pr, nodes)
    ensures RRFree(t, pr, None, nodes)
  {
    match t
    case Fork(i, l, r) =>
      if i == c {
        ColorFrame(l, IsRed(nodes, i), Some(c), None, nodes, nodes);
        ColorFrame(r, IsRed(nodes, i), Some(c), None, nodes, nodes);
      } else if c in Ids(l) {
        NoViolationBelowBlack(l, IsRed(nodes, i), c, nodes);
        ColorFrame(r, IsRed(nodes, i), Some(c), None, nodes, nodes);
      } else {
        NoViolationBelowBlack(r, IsRed(nodes, i), c, nodes);
        ColorFrame(l, IsRed(nodes, i), Some(c), None, nodes, nodes);
      }
  }

  /** Making the root black removes a violation allowed at the root and keeps the balance. */
  lemma {:induction false} BlackenRoot<V>(t: Shape, pr: bool, ex: Option<nat>, a: seq<Node<V>>, b: seq<Node<V>>)
    requires t.Fork? && Distinct(t) && (ex.None? || ex == Some(t.id))
    requires RRFree(t, pr, ex, a)
    requires !IsRed(b, t.id) && forall k :: k in Ids(t) && k != t.id ==> IsRed(a, k) == IsRed(b, k)
    ensures RRFree(t, pr, None, b)
    ensures Balanced(t, a) ==> Balanced(t, b)
  {
    var Fork(i, l, r) := t;
    ColorFrame(l, IsRed(a, i), ex, None, a, b);
    ColorFrame(r, IsRed(a, i), ex, None, a, b);
    if IsRed(a, i) {
      RRFreeUnderBlack(l, None, b);
      RRFreeUnderBlack(r, None, b);
    }
  }


  // ---------------------------------------------------------------------------------------
  // The cases of `fix`, on the subtree they rebuild
  // ---------------------------------------------------------------------------------------

  /**
   * The uncle-red case: the parent and the uncle (the two children of the grandparent `s`)
   * turn black and the grandparent red. The violation at the grandchild `cur` moves up to
   * the grandparent, and every path through the grandparent keeps its number of black cells.
   */
  lemma {:induction false} UncleCase<V>(s: Shape, pc: bool, cur: nat, a: seq<Node<V>>, b: seq<Node<V>>)
    requires s.Fork? && s.left.Fork? && s.right.Fork? && Distinct(s)
    requires IsRed(a, s.left.id) && IsRed(a, s.right.id)
    requires || Root(s.left.left) == Some(cur) || Root(s.left.right) == Some(cur)
             || Root(s.right.left) == Some(cur) || Root(s.right.right) == Some(cur)
    requires RRFree(s, pc, Some(cur), a)
    requires IsRed(b, s.id) && !IsRed(b, s.left.id) && !IsRed(b, s.right.id)
    requires forall k :: k in Ids(s) && k != s.id && k != s.left.id && k != s.right.id ==> IsRed(a, k) == IsRed(b, k)
    ensures !IsRed(a, s.id)
    ensures RRFree(s, pc, Some(s.id), b)
    ensures Balanced(s, a) ==> Balanced(s, b) && BH(s, b) == BH(s, a)
  {
    var Fork(g, L, R) := s;
    var Fork(p, A, B) := L;
    var Fork(u, C, D) := R;
    assert cur in Ids(A) + Ids(B) + Ids(C) + Ids(D);
    assert cur != p && cur != u;
    assert Root(A) == Some(cur) || cur !in Ids(A);
    assert Root(B) == Some(cur) || cur !in Ids(B);
    assert Root(C) == Some(cur) || cur !in Ids(C);
    assert Root(D) == Some(cur) || cur !in Ids(D);
    ChildRelax(A, IsRed(a, p), cur, Some(g), a, b);
    ChildRelax(B, IsRed(a, p), cur, Some(g), a, b);
    ChildRelax(C, IsRed(a, u), cur, Some(g), a, b);
    ChildRelax(D, IsRed(a, u), cur, Some(g), a, b);
    if Balanced(s, a) {
      UncleBalance(s, a, b);
    }
  }

  /** The recolouring of the uncle case keeps the black height of the grandparent. */
  lemma UncleBalance<V>(s: Shape, a: seq<Node<V>>, b: seq<Node<V>>)
    requires s.Fork? && s.left.Fork? && s.right.Fork? && Distinct(s) && Balanced(s, a)
    requires !IsRed(a, s.id) && IsRed(a, s.left.id) && IsRed(a, s.right.id)
    requires IsRed(b, s.id) && !IsRed(b, s.left.id) && !IsRed(b, s.right.id)
    requires forall k :: k in Ids(s) && k != s.id && k != s.left.id && k != s.right.id ==> IsRed(a, k) == IsRed(b, k)
    ensures Balanced(s, b) && BH(s, b) == BH(s, a)
  {
    var Fork(g, L, R) := s;
    var Fork(p, A, B) := L;
    var Fork(u, C, D) := R;
    ColorFrame(A, false, None, None, a, b);
    ColorFrame(B, false, None, None, a, b);
    ColorFrame(C, false, None, None, a, b);
    ColorFrame(D, false, None, None, a, b);
    {
      assert Balanced(L, a) && Balanced(R, a) && BH(L, a) == BH(R, a);
      assert Balanced(A, a) && Balanced(B, a) && BH(A, a) == BH(B, a);
      assert Balanced(C, a) && Balanced(D, a) && BH(C, a) == BH(D, a);
      assert BH(L, a) == BH(A, a) && BH(L, b) == 1 + BH(A, b);
      assert BH(R, a) == BH(C, a) && BH(R, b) == 1 + BH(C, b);
      assert Balanced(L, b) && Balanced(R, b);
      assert BH(s, a) == 1 + BH(L, a) && BH(s, b) == BH(L, b);
    }
  }

  /**
   * The line case with the parent on the left: cur, its parent and the grandparent `s` on one
   * line. The grandparent turns red, the parent black, and a right rotation at the
   * grandparent leaves no violation and the black height as it was.
   */
  lemma {:induction false} LineLeft<V>(s: Shape, pc: bool, a: seq<Node<V>>, b: seq<Node<V>>)
    requires s.Fork? && s.left.Fork? && s.left.left.Fork? && Distinct(s)
    requires IsRed(a, s.left.id) && IsRed(a, s.left.left.id) && !RootRed(s.right, a)
    requires RRFree(s, pc, Some(s.left.left.id), a)
    requires IsRed(b, s.id) && !IsRed(b, s.left.id)
    requires forall k :: k in Ids(s) && k != s.id && k != s.left.id ==> IsRed(a, k) == IsRed(b, k)
    ensures RRFree(RotR(s), pc, None, b)
    ensures Balanced(s, a) ==> Balanced(RotR(s), b) && BH(RotR(s), b) == BH(s, a)
  {
    var Fork(g, Fork(p, X, C), D) := s;
    var x := X.id;
    assert x != p && x !in Ids(C) && x !in Ids(D);
    assert !IsRed(a, g);
    ChildRelax(X, IsRed(a, p), x, None, a, b);
    ColorFrame(C, true, Some(x), None, a, b);
    ColorFrame(D, false, Some(x), None, a, b);
    RRFreeBlackRoot(D, None, b);
    ColorFrame(X, false, None, None, a, b);
    if Balanced(s, a) {
      var P := Fork(p, X, C);
      assert Balanced(P, a) && Balanced(D, a) && BH(P, a) == BH(D, a);
      assert Balanced(X, a) && Balanced(C, a) && BH(X, a) == BH(C, a);
      assert BH(P, a) == BH(X, a) && BH(s, a) == 1 + BH(X, a);
      var G := Fork(g, C, D);
      assert BH(G, b) == BH(C, b) && Balanced(G, b);
      assert RotR(s) == Fork(p, X, G);
      assert Balanced(Fork(p, X, G), b) && BH(Fork(p, X, G), b) == 1 + BH(X, b);
    }
  }

  /** The line case with the parent on the right, mirrored: a left rotation at the grandparent. */
  lemma {:induction false} LineRight<V>(s: Shape, pc: bool, a: seq<Node<V>>, b: seq<Node<V>>)
    requires s.Fork? && s.right.Fork? && s.right.right.Fork? && Distinct(s)
    requires IsRed(a, s.right.id) && IsRed(a, s.right.right.id) && !RootRed(s.left, a)
    requires RRFree(s, pc, Some(s.right.right.id), a)
    requires IsRed(b, s.id) && !IsRed(b, s.right.id)
    requires forall k :: k in Ids(s) && k != s.id && k != s.right.id ==> IsRed(a, k) == IsRed(b, k)
    ensures RRFree(RotL(s), pc, None, b)
    ensures Balanced(s, a) ==> Balanced(RotL(s), b) && BH(RotL(s), b) == BH(s, a)
  {
    var Fork(g, D, Fork(p, C, X)) := s;
    var x := X.id;
    assert x != p && x !in Ids(C) && x !in Ids(D);
    assert !IsRed(a, g);
    ChildRelax(X, IsRed(a, p), x, None, a, b);
    ColorFrame(C, true, Some(x), None, a, b);
    ColorFrame(D, false, Some(x), None, a, b);
    RRFreeBlackRoot(D, None, b);
    ColorFrame(X, false, None, None, a, b);
    if Balanced(s, a) {
      var P := Fork(p, C, X);
      assert Balanced(D, a) && Balanced(P, a) && BH(D, a) == BH(P, a);
      assert Balanced(C, a) && Balanced(X, a) && BH(C, a) == BH(X, a);
      assert BH(P, a) == BH(C, a) && BH(s, a) == 1 + BH(D, a);
      var G := Fork(g, D, C);
      assert BH(G, b) == BH(D, b) && Balanced(G, b);
      assert RotL(s) == Fork(p, G, X);
      assert Balanced(Fork(p, G, X), b) && BH(Fork(p, G, X), b) == 1 + BH(G, b);
    }
  }

  /**
   * The triangle case with the parent on the left and cur its right child: a left rotation at
   * the parent `s` turns the triangle into a line, with the violation now at the old parent.
   */
  lemma {:induction false} TriangleLeft<V>(s: Shape, pc: bool, nodes: seq<Node<V>>)
    requires s.Fork? && s.right.Fork? && Distinct(s)
    requires IsRed(nodes, s.id) && IsRed(nodes, s.right.id)
    requires RRFree(s, pc, Some(s.right.id), nodes)
    ensures RRFree(RotL(s), pc, Some(s.id), nodes)
    ensures Balanced(s, nodes) ==> Balanced(RotL(s), nodes) && BH(RotL(s), nodes) == BH(s, nodes)
  {
    var Fork(p, A, Fork(x, B, C)) := s;
    assert x != p && !pc;
    ColorFrame(A, true, Some(x), Some(p), nodes, nodes);
    ColorFrame(B, true, Some(x), Some(p), nodes, nodes);
    ColorFrame(C, true, Some(x), Some(p), nodes, nodes);
    if Balanced(s, nodes) {
      var X := Fork(x, B, C);
      assert Balanced(A, nodes) && Balanced(X, nodes) && BH(A, nodes) == BH(X, nodes);
      assert Balanced(B, nodes) && Balanced(C, nodes) && BH(B, nodes) == BH(C, nodes);
      assert BH(X, nodes) == BH(B, nodes) && BH(s, nodes) == BH(A, nodes);
      var P := Fork(p, A, B);
      assert Balanced(P, nodes) && BH(P, nodes) == BH(A, nodes);
      assert RotL(s) == Fork(x, P, C);
    }
  }

  /** The triangle case with the parent on the right, mirrored: a right rotation at the parent. */
  lemma {:induction false} TriangleRight<V>(s: Shape, pc: bool, nodes: seq<Node<V>>)
    requires s.Fork? && s.left.Fork? && Distinct(s)
    requires IsRed(nodes, s.id) && IsRed(nodes, s.left.id)
    requires RRFree(s, pc, Some(s.left.id), nodes)
    ensures RRFree(RotR(s), pc, Some(s.id), nodes)
    ensures Balanced(s, nodes) ==> Balanced(RotR(s), nodes) && BH(RotR(s), nodes) == BH(s, nodes)
  {
    var Fork(p, Fork(x, A, B), C) := s;
    assert x != p && !pc;
    ColorFrame(A, true, Some(x), Some(p), nodes, nodes);
    ColorFrame(B, true, Some(x), Some(p), nodes, nodes);
    ColorFrame(C, true, Some(x), Some(p), nodes, nodes);
    if Balanced(s, nodes) {
      var X := Fork(x, A, B);
      assert Balanced(X, nodes) && Balanced(C, nodes) && BH(X, nodes) == BH(C, nodes);
      assert Balanced(A, nodes) && Balanced(B, nodes) && BH(A, nodes) == BH(B, nodes);
      assert BH(X, nodes) == BH(A, nodes) && BH(s, nodes) == BH(A, nodes);
      var P := Fork(p, B, C);
      assert Balanced(P, nodes) && BH(P, nodes) == BH(B, nodes);
      assert RotR(s) == Fork(x, A, P);
    }
  }


  // ---------------------------------------------------------------------------------------
  // Subtrees of a whole tree
  // ---------------------------------------------------------------------------------------

  /** Putting a subtree back where it was changes nothing. */
  lemma {:induction false} ReplaceSelf(t: Shape, n: nat)
    requires n in Ids(t)
    ensures ReplaceAt(t, n, SubtreeAt(t, n)) == t
  {
    match t
    case Fork(i, l, r) =>
      if i != n {
        if n in Ids(l) {
          ReplaceSelf(l, n);
        } else {
          ReplaceSelf(r, n);
        }
      }
  }

  /** A subtree is as free of red-red pairs as the whole, below the colour of its parent. */
  lemma {:induction false} RRFreeSubtree<V>(t: Shape, pr: bool, ex: Option<nat>, n: nat, nodes: seq<Node<V>>)
    requires RRFree(t, pr, ex, nodes) && n in Ids(t)
    ensures RRFree(SubtreeAt(t, n), ParentRedOf(t, n, pr, nodes), ex, nodes)
  {
    match t
    case Fork(i, l, r) =>
      if i != n {
        if n in Ids(l) {
          RRFreeSubtree(l, IsRed(nodes, i), ex, n, nodes);
        } else {
          RRFreeSubtree(r, IsRed(nodes, i), ex, n, nodes);
        }
      }
  }

  lemma {:induction false} BalancedSubtree<V>(t: Shape, n: nat, nodes: seq<Node<V>>)
    requires Balanced(t, nodes) && n in Ids(t)
    ensures Balanced(SubtreeAt(t, n), nodes)
  {
    match t
    case Fork(i, l, r) =>
      if i != n {
        if n in Ids(l) {
          BalancedSubtree(l, n, nodes);
        } else {
          BalancedSubtree(r, n, nodes);
        }
      }
  }

  /** A tree with no red-red pair has none outside any allowed exception either. */
  lemma {:induction false} RRFreeAllow<V>(t: Shape, pr: bool, ex: Option<nat>, nodes: seq<Node<V>>)
    requires RRFree(t, pr, None, nodes)
    ensures RRFree(t, pr, ex, nodes)
  {
    match t
    case Nil =>
    case Fork(i, l, r) =>
      RRFreeAllow(l, IsRed(nodes, i), ex, nodes);
      RRFreeAllow(r, IsRed(nodes, i), ex, nodes);
  }

  /** A cell that is not the root is the left or the right child of the cell its link names. */
  lemma ChildOfParent<V>(t: Shape, nodes: seq<Node<V>>, c: nat, p: nat)
    requires Linked(t, None, nodes) && Distinct(t) && c in Ids(t) && c < |nodes| && nodes[c].parent == Some(p)
    ensures p in Ids(t) && p < |nodes| && Root(t) != Some(c)
    ensures var s := SubtreeAt(t, p);
      && s.Fork? && s.id == p && Distinct(s) && Linked(s, nodes[p].parent, nodes)
      && (nodes[p].left == Some(c) <==> nodes[p].right != Some(c))
      && (nodes[p].left == Some(c) ==> s.left.Fork? && s.left.id == c && SubtreeAt(t, c) == s.left)
      && (nodes[p].right == Some(c) ==> s.right.Fork? && s.right.id == c && SubtreeAt(t, c) == s.right)
  {
    ParentInside(t, None, nodes, c);
    ParentHasChild(t, None, nodes, c, p);
    ParentInside(t, None, nodes, p);
    SubtreeAtIds(t, p);
    SubtreeLinked(t, None, nodes, p);
    SubtreeChildren(t, p);
    var s := SubtreeAt(t, p);
    if s.left.Fork? {
      assert s.left.id in Ids(s.left);
    }
    if s.right.Fork? {
      assert s.right.id in Ids(s.right);
    }
  }

  // ---------------------------------------------------------------------------------------
  // Rotations in the arena
  // ---------------------------------------------------------------------------------------

  /**
   * The arena `b` is `a` after `rotate_left` at `n`, whose right child is `y`: `y` takes the
   * place of `n` below the old parent `q` (in the slot that held `n`, the right one unless
   * the left one did), `n` becomes the left child of `y`, the old left child `z` of `y`
   * becomes the right child of `n`, and no other cell changes.
   */
  ghost predicate RotatedLeft<V>(a: seq<Node<V>>, b: seq<Node<V>>, n: nat)
    requires n < |a| && a[n].right.Some? && a[n].right.value < |a|
  {
    var y := a[n].right.value;
    var z := a[y].left;
    var q := a[n].parent;
    && |b| == |a|
    && b[y] == a[y].(parent := q, left := Some(n))
    && b[n] == a[n].(right := z, parent := Some(y))
    && (z.Some? ==> z.value < |a| && b[z.value] == a[z.value].(parent := Some(n)))
    && (q.Some? ==>
         && q.value < |a|
         && b[q.value] == (if a[q.value].left == Some(n) then a[q.value].(left := Some(y)) else a[q.value].(right := Some(y))))
    && forall k :: 0 <= k < |a| && k != y && k != n && Some(k) != z && Some(k) != q ==> b[k] == a[k]
  }

  /** `rotate_right` at `n`, whose left child is `y`: the mirror image of `RotatedLeft`. */
  ghost predicate RotatedRight<V>(a: seq<Node<V>>, b: seq<Node<V>>, n: nat)
    requires n < |a| && a[n].left.Some? && a[n].left.value < |a|
  {
    var y := a[n].left.value;
    var z := a[y].right;
    var q := a[n].parent;
    && |b| == |a|
    && b[y] == a[y].(parent := q, right := Some(n))
    && b[n] == a[n].(left := z, parent := Some(y))
    && (z.Some? ==> z.value < |a| && b[z.value] == a[z.value].(parent := Some(n)))
    && (q.Some? ==>
         && q.value < |a|
         && b[q.value] == (if a[q.value].left == Some(n) then a[q.value].(left := Some(y)) else a[q.value].(right := Some(y))))
    && forall k :: 0 <= k < |a| && k != y && k != n && Some(k) != z && Some(k) != q ==> b[k] == a[k]
  }

  /**
   * The cells a rotation at `n` touches are distinct: `n`, its child `y`, the grandchild `z`
   * that changes sides, and the parent `q` of `n`, which holds `n` in exactly one slot.
   */
  lemma RotationSite<V>(t: Shape, a: seq<Node<V>>, n: nat)
    requires Linked(t, None, a) && Distinct(t) && n in Ids(t)
    ensures n < |a|
    ensures var s := SubtreeAt(t, n);
      && s.Fork? && s.id == n && Distinct(s) && Linked(s, a[n].parent, a)
      && (a[n].parent.Some? ==>
            var q := a[n].parent.value;
            && q in Ids(t) && q !in Ids(s) && q < |a| && Root(t) != Some(n)
            && (a[q].left == Some(n) <==> a[q].right != Some(n)))
      && (a[n].parent.None? ==> Root(t) == Some(n))
  {
    SubtreeAtIds(t, n);
    SubtreeLinked(t, None, a, n);
    ParentInside(t, None, a, n);
    if a[n].parent.Some? {
      var q := a[n].parent.value;
      ChildOfParent(t, a, n, q);
      var sq := SubtreeAt(t, q);
      assert q !in Ids(sq.left) && q !in Ids(sq.right);
    }
  }

  /** A subtree whose root alone changed its parent link is linked below the new parent. */
  lemma Reparent<V>(t: Shape, q: Option<nat>, q2: Option<nat>, a: seq<Node<V>>, b: seq<Node<V>>)
    requires t.Fork? && Distinct(t) && Linked(t, q, a) && t.id < |b|
    requires b[t.id] == a[t.id].(parent := q2)
    requires forall k :: k in Ids(t) && k != t.id ==> k < |a| && k < |b| && SameLinks(a[k], b[k])
    ensures Linked(t, q2, b)
  {
    var Fork(z, l, r) := t;
    LinkedBounds(t, q, a);
    LinkedFrame(l, Some(z), a, b);
    LinkedFrame(r, Some(z), a, b);
  }

  /** The rotated subtree hangs, linked, from the parent of the old one. */
  lemma RotatedLeftLocal<V>(n: nat, y: nat, A: Shape, B: Shape, C: Shape, a: seq<Node<V>>, b: seq<Node<V>>)
    requires Distinct(Fork(n, A, Fork(y, B, C))) && n < |a|
    requires Linked(Fork(n, A, Fork(y, B, C)), a[n].parent, a)
    requires a[n].parent.Some? ==> a[n].parent.value !in Ids(Fork(n, A, Fork(y, B, C)))
    requires a[n].right.Some? && a[n].right.value < |a| && RotatedLeft(a, b, n)
    ensures Linked(Fork(y, Fork(n, A, B), C), a[n].parent, b)
  {
    var q := a[n].parent;
    assert Linked(A, Some(n), a) && Linked(Fork(y, B, C), Some(n), a);
    assert a[n].right == Some(y) && a[y].left == Root(B) && Linked(B, Some(y), a) && Linked(C, Some(y), a);
    LinkedBounds(A, Some(n), a);
    LinkedBounds(C, Some(y), a);
    forall k | k in Ids(A) ensures k < |a| && k < |b| && SameLinks(a[k], b[k]) {
      assert k != y && k != n && Some(k) != Root(B) && Some(k) != q;
    }
    forall k | k in Ids(C) ensures k < |a| && k < |b| && SameLinks(a[k], b[k]) {
      assert k != y && k != n && Some(k) != Root(B) && Some(k) != q;
    }
    LinkedFrame(A, Some(n), a, b);
    LinkedFrame(C, Some(y), a, b);
    if B.Fork? {
      LinkedBounds(B, Some(y), a);
      forall k | k in Ids(B) && k != B.id ensures k < |a| && k < |b| && SameLinks(a[k], b[k]) {
        assert k != y && k != n && Some(k) != q;
      }
      Reparent(B, Some(y), Some(n), a, b);
    }
  }

  /** The mirror image of `RotatedLeftLocal`. */
  lemma RotatedRightLocal<V>(n: nat, y: nat, A: Shape, B: Shape, C: Shape, a: seq<Node<V>>, b: seq<Node<V>>)
    requires Distinct(Fork(n, Fork(y, A, B), C)) && n < |a|
    requires Linked(Fork(n, Fork(y, A, B), C), a[n].parent, a)
    requires a[n].parent.Some? ==> a[n].parent.value !in Ids(Fork(n, Fork(y, A, B), C))
    requires a[n].left.Some? && a[n].left.value < |a| && RotatedRight(a, b, n)
    ensures Linked(Fork(y, A, Fork(n, B, C)), a[n].parent, b)
  {
    var q := a[n].parent;
    assert Linked(Fork(y, A, B), Some(n), a) && Linked(C, Some(n), a);
    assert a[n].left == Some(y) && a[y].right == Root(B) && Linked(A, Some(y), a) && Linked(B, Some(y), a);
    LinkedBounds(A, Some(y), a);
    LinkedBounds(C, Some(n), a);
    forall k | k in Ids(A) ensures k < |a| && k < |b| && SameLinks(a[k], b[k]) {
      assert k != y && k != n && Some(k) != Root(B) && Some(k) != q;
    }
    forall k | k in Ids(C) ensures k < |a| && k < |b| && SameLinks(a[k], b[k]) {
      assert k != y && k != n && Some(k) != Root(B) && Some(k) != q;
    }
    LinkedFrame(A, Some(y), a, b);
    LinkedFrame(C, Some(n), a, b);
    if B.Fork? {
      LinkedBounds(B, Some(y), a);
      forall k | k in Ids(B) && k != B.id ensures k < |a| && k < |b| && SameLinks(a[k], b[k]) {
        assert k != y && k != n && Some(k) != q;
      }
      Reparent(B, Some(y), Some(n), a, b);
    }
  }

  /** The cells a left rotation at `n` writes are in the arena and distinct. */
  lemma RotateLeftCells<V>(t: Shape, a: seq<Node<V>>, n: nat)
    requires Linked(t, None, a) && Distinct(t) && n in Ids(t) && n < |a| && a[n].right.Some?
    ensures a[n].right.value < |a|
    ensures var y := a[n].right.value; var z := a[y].left; var q := a[n].parent;
      && y != n
      && (z.Some? ==> z.value < |a| && z.value != n && z.value != y)
      && (q.Some? ==> q.value < |a| && q.value != n && q.value != y && q != z)
  {
    RotationSite(t, a, n);
    var s := SubtreeAt(t, n);
    LinkedBounds(s, a[n].parent, a);
    assert n !in Ids(s.right) && s.right.id !in Ids(s.right.left);
    assert Linked(s.right, Some(n), a) && s.right.id in Ids(s.right);
    if s.right.left.Fork? {
      assert s.right.left.id in Ids(s.right.left) && s.right.left.id in Ids(s);
    }
  }

  /** The cells a right rotation at `n` writes are in the arena and distinct. */
  lemma RotateRightCells<V>(t: Shape, a: seq<Node<V>>, n: nat)
    requires Linked(t, None, a) && Distinct(t) && n in Ids(t) && n < |a| && a[n].left.Some?
    ensures a[n].left.value < |a|
    ensures var y := a[n].left.value; var z := a[y].right; var q := a[n].parent;
      && y != n
      && (z.Some? ==> z.value < |a| && z.value != n && z.value != y)
      && (q.Some? ==> q.value < |a| && q.value != n && q.value != y && q != z)
  {
    RotationSite(t, a, n);
    var s := SubtreeAt(t, n);
    LinkedBounds(s, a[n].parent, a);
    assert n !in Ids(s.left) && s.left.id !in Ids(s.left.right);
    assert Linked(s.left, Some(n), a) && s.left.id in Ids(s.left);
    if s.left.right.Fork? {
      assert s.left.right.id in Ids(s.left.right) && s.left.right.id in Ids(s);
    }
  }

  /** After `rotate_left` at `n` the links describe the shape rotated at `n`. */
  lemma RotatedLeftLinked<V>(t: Shape, a: seq<Node<V>>, b: seq<Node<V>>, n: nat)
    requires Linked(t, None, a) && Distinct(t) && n in Ids(t) && n < |a|
    requires a[n].right.Some? && a[n].right.value < |a| && RotatedLeft(a, b, n)
    ensures Linked(RotateLeftAt(t, n), None, b)
  {
    RotationSite(t, a, n);
    LinkedBounds(t, None, a);
    var s := SubtreeAt(t, n);
    var Fork(_, A, R) := s;
    var Fork(y, B, C) := R;
    RotatedLeftLocal(n, y, A, B, C, a, b);
    RotLKeeps(s);
    forall k | k in Ids(t) && k !in Ids(RotL(s)) && Some(k) != a[n].parent
      ensures k < |a| && k < |b| && SameLinks(a[k], b[k])
    {
      assert k != y && k != n && Some(k) != a[y].left;
    }
    ReplaceLinked(t, None, n, RotL(s), a, b);
  }

  /** After `rotate_right` at `n` the links describe the shape rotated at `n`. */
  lemma RotatedRightLinked<V>(t: Shape, a: seq<Node<V>>, b: seq<Node<V>>, n: nat)
    requires Linked(t, None, a) && Distinct(t) && n in Ids(t) && n < |a|
    requires a[n].left.Some? && a[n].left.value < |a| && RotatedRight(a, b, n)
    ensures Linked(RotateRightAt(t, n), None, b)
  {
    RotationSite(t, a, n);
    LinkedBounds(t, None, a);
    var s := SubtreeAt(t, n);
    var Fork(_, L, C) := s;
    var Fork(y, A, B) := L;
    RotatedRightLocal(n, y, A, B, C, a, b);
    RotRKeeps(s);
    forall k | k in Ids(t) && k !in Ids(RotR(s)) && Some(k) != a[n].parent
      ensures k < |a| && k < |b| && SameLinks(a[k], b[k])
    {
      assert k != y && k != n && Some(k) != a[y].right;
    }
    ReplaceLinked(t, None, n, RotR(s), a, b);
  }


  // ---------------------------------------------------------------------------------------
  // Colour writes
  // ---------------------------------------------------------------------------------------

  /** The arena after the source's `node.color = c` on cell `i`. */
  function Paint<V>(nodes: seq<Node<V>>, i: nat, c: Color): seq<Node<V>>
    requires i < |nodes|
  {
    nodes[i := nodes[i].(color := c)]
  }

  /** The number of red cells of the arena. */
  ghost function RedCount<V>(nodes: seq<Node<V>>): nat
  {
    if nodes == [] then 0
    else (if nodes[|nodes| - 1].color == Red then 1 else 0) + RedCount(nodes[..|nodes| - 1])
  }

  /** Painting one cell changes the red count by the change of that cell alone. */
  lemma {:induction false} PaintCount<V>(nodes: seq<Node<V>>, i: nat, c: Color)
    requires i < |nodes|
    ensures RedCount(Paint(nodes, i, c)) + (if nodes[i].color == Red then 1 else 0)
         == RedCount(nodes) + (if c == Red then 1 else 0)
  {
    var last := |nodes| - 1;
    var painted := Paint(nodes, i, c);
    if i == last {
      assert painted[..last] == nodes[..last];
    } else {
      assert painted[..last] == Paint(nodes[..last], i, c);
      PaintCount(nodes[..last], i, c);
    }
  }

  /** Two arenas of one size whose cells have the same colours. */
  ghost predicate SameColorsAll<V>(a: seq<Node<V>>, b: seq<Node<V>>)
  {
    |a| == |b| && forall k :: 0 <= k < |a| ==> a[k].color == b[k].color
  }

  /** Two arenas of one size whose cells hold the same keys and values. */
  ghost predicate SameData<V>(a: seq<Node<V>>, b: seq<Node<V>>)
  {
    |a| == |b| && forall k :: 0 <= k < |a| ==> a[k].key == b[k].key && a[k].value == b[k].value
  }

  lemma {:induction false} RedCountSame<V>(a: seq<Node<V>>, b: seq<Node<V>>)
    requires SameColorsAll(a, b)
    ensures RedCount(a) == RedCount(b)
  {
    if a != [] {
      var last := |a| - 1;
      assert SameColorsAll(a[..last], b[..last]);
      RedCountSame(a[..last], b[..last]);
    }
  }

  /** How far `fix` is from the line case at `c`: 1 when `c`, its parent and grandparent bend. */
  ghost function Bent<V>(nodes: seq<Node<V>>, c: nat): nat
  {
    if c < |nodes| && nodes[c].parent.Some? && nodes[c].parent.value < |nodes| then
      var p := nodes[c].parent.value;
      if nodes[p].parent.Some? && nodes[p].parent.value < |nodes| then
        var g := nodes[p].parent.value;
        if (nodes[g].left == Some(p)) != (nodes[p].left == Some(c)) then 1 else 0
      else 0
    else 0
  }

  // ---------------------------------------------------------------------------------------
  // The steps of `fix` on a whole tree
  // ---------------------------------------------------------------------------------------

  /**
   * The uncle-red step: parent `p` and uncle `u` painted black, grandparent `g` red. The only
   * possible violation moves from `c` up to `g`, the tree stays balanced, and one red cell
   * fewer remains.
   */
  lemma UncleStep<V>(t: Shape, a: seq<Node<V>>, c: nat, p: nat, g: nat, u: nat)
    requires Linked(t, None, a) && Distinct(t) && c in Ids(t)
    requires RRFree(t, true, Some(c), a) && Balanced(t, a)
    requires c < |a| && a[c].parent == Some(p) && p < |a| && IsRed(a, p) && a[p].parent == Some(g) && g < |a|
    requires Some(u) == (if a[g].left == Some(p) then a[g].right else a[g].left) && IsRed(a, u)
    ensures var b := Paint(Paint(Paint(a, u, Black), p, Black), g, Red);
      && g in Ids(t) && Linked(t, None, b)
      && RRFree(t, true, Some(g), b) && Balanced(t, b)
      && RedCount(b) < RedCount(a)
  {
    ChildOfParent(t, a, c, p);
    ChildOfParent(t, a, p, g);
    var S := SubtreeAt(t, g);
    var U := if a[g].left == Some(p) then S.right else S.left;
    assert U.Fork? && U.id == u;
    assert g != p && g != u && p != u;
    var b := Paint(Paint(Paint(a, u, Black), p, Black), g, Red);
    PaintThree(a, u, p, g, Black, Black, Red);
    RRFreeSubtree(t, true, Some(c), g, a);
    BalancedSubtree(t, g, a);
    UncleCase(S, ParentRedOf(t, g, true, a), c, a, b);
    SubtreeAtIds(t, g);
    RecolourAt(t, g, Some(c), Some(g), a, b);
    UncleCount(a, u, p, g);
  }

  /** Three distinct cells painted one after the other; nothing else changes. */
  lemma PaintThree<V>(a: seq<Node<V>>, i: nat, j: nat, k: nat, ci: Color, cj: Color, ck: Color)
    requires i < |a| && j < |a| && k < |a| && i != j && j != k && i != k
    ensures var b := Paint(Paint(Paint(a, i, ci), j, cj), k, ck);
      && |b| == |a| && b[i].color == ci && b[j].color == cj && b[k].color == ck
      && (forall m :: 0 <= m < |a| && m != i && m != j && m != k ==> b[m] == a[m])
      && (forall m :: 0 <= m < |a| ==> SameLinks(a[m], b[m]))
      && SameData(a, b)
  {
  }

  /**
   * Recolouring cells of the subtree at `n`, after which the subtree is free of red-red pairs
   * except at `n`, and balanced with its old black height, leaves the same of the whole tree.
   */
  lemma RecolourAt<V>(t: Shape, n: nat, ex: Option<nat>, ex2: Option<nat>, a: seq<Node<V>>, b: seq<Node<V>>)
    requires Linked(t, None, a) && Distinct(t) && n in Ids(t)
    requires RRFree(t, true, ex, a) && Balanced(t, a)
    requires (ex.Some? && ex.value in Ids(SubtreeAt(t, n))) && ex2 == Some(n)
    requires |b| == |a| && forall k :: 0 <= k < |a| ==> SameLinks(a[k], b[k])
    requires forall k :: k in Ids(t) && k !in Ids(SubtreeAt(t, n)) ==> IsRed(a, k) == IsRed(b, k)
    requires RRFree(SubtreeAt(t, n), ParentRedOf(t, n, true, a), ex2, b)
    requires Balanced(SubtreeAt(t, n), b) && BH(SubtreeAt(t, n), b) == BH(SubtreeAt(t, n), a)
    ensures Linked(t, None, b) && RRFree(t, true, ex2, b) && Balanced(t, b)
  {
    var S := SubtreeAt(t, n);
    SubtreeAtIds(t, n);
    ReplaceSelf(t, n);
    RRFreeReplace(t, true, ex, n, S, ex2, a, b);
    BalancedReplace(t, n, S, a, b);
    LinkedBounds(t, None, a);
    LinkedFrame(t, None, a, b);
  }

  /** Two red cells painted black and a black one red leave one red cell fewer. */
  lemma UncleCount<V>(a: seq<Node<V>>, u: nat, p: nat, g: nat)
    requires IsRed(a, u) && IsRed(a, p) && g < |a| && !IsRed(a, g) && u != p
    ensures RedCount(Paint(Paint(Paint(a, u, Black), p, Black), g, Red)) < RedCount(a)
  {
    PaintCount(a, u, Black);
    PaintCount(Paint(a, u, Black), p, Black);
    PaintCount(Paint(Paint(a, u, Black), p, Black), g, Red);
  }


  /** Two distinct cells painted one after the other; nothing else changes. */
  lemma PaintTwo<V>(a: seq<Node<V>>, i: nat, j: nat, ci: Color, cj: Color)
    requires i < |a| && j < |a| && i != j
    ensures var b := Paint(Paint(a, i, ci), j, cj);
      && |b| == |a| && b[i].color == ci && b[j].color == cj
      && (forall m :: 0 <= m < |a| && m != i && m != j ==> b[m] == a[m])
      && (forall m :: 0 <= m < |a| ==> SameLinks(a[m], b[m]))
      && SameData(a, b)
  {
  }

  /** A rotation writes links only: colours, keys and values stay. */
  lemma RotatedKeeps<V>(a: seq<Node<V>>, b: seq<Node<V>>, n: nat)
    requires n < |a|
    requires (a[n].right.Some? && a[n].right.value < |a| && RotatedLeft(a, b, n))
          || (a[n].left.Some? && a[n].left.value < |a| && RotatedRight(a, b, n))
    ensures SameColorsAll(a, b) && SameData(a, b)
  {
  }

  /**
   * Rebuilding the subtree at `n` as `s` on the same cells keeps the whole tree free of
   * red-red pairs, but for `ex2`, and balanced, when `s` is so below the old parent colour,
   * has the old black height, and no cell outside changed colour.
   */
  lemma PlugAt<V>(t: Shape, n: nat, s: Shape, ex: Option<nat>, ex2: Option<nat>, a: seq<Node<V>>, b: seq<Node<V>>)
    requires Distinct(t) && n in Ids(t) && Ids(s) == Ids(SubtreeAt(t, n))
    requires RRFree(t, true, ex, a) && Balanced(t, a)
    requires ex.Some? && ex.value in Ids(s) && (ex2.None? || ex2.value in Ids(s))
    requires forall k :: k in Ids(t) && k !in Ids(s) ==> IsRed(a, k) == IsRed(b, k)
    requires RRFree(s, ParentRedOf(t, n, true, a), ex2, b)
    requires Balanced(s, b) && BH(s, b) == BH(SubtreeAt(t, n), a)
    ensures RRFree(ReplaceAt(t, n, s), true, ex2, b) && Balanced(ReplaceAt(t, n, s), b)
  {
    RRFreeReplace(t, true, ex, n, s, ex2, a, b);
    BalancedReplace(t, n, s, a, b);
  }

  /**
   * The line step with the parent on the left: grandparent `g` painted red, parent `p` black,
   * then `rotate_right` at `g` (giving `d`). No violation remains and the tree stays balanced;
   * the parent is the new root exactly when the grandparent was.
   */
  lemma LineLeftStep<V>(t: Shape, a: seq<Node<V>>, c: nat, p: nat, g: nat, d: seq<Node<V>>)
    requires Linked(t, None, a) && Distinct(t) && c in Ids(t)
    requires RRFree(t, true, Some(c), a) && Balanced(t, a) && IsRed(a, c)
    requires c < |a| && a[c].parent == Some(p) && p < |a| && IsRed(a, p) && a[p].parent == Some(g) && g < |a|
    requires a[g].left == Some(p) && a[p].left == Some(c)
    requires !(a[g].right.Some? && IsRed(a, a[g].right.value))
    requires Linked(RotateRightAt(t, g), None, d) && SameColorsAll(Paint(Paint(a, g, Red), p, Black), d)
    ensures var t2 := RotateRightAt(t, g);
      && Distinct(t2) && Ids(t2) == Ids(t) && InOrder(t2) == InOrder(t)
      && Root(t2) == (if a[g].parent.None? then Some(p) else Root(t))
      && RRFree(t2, true, None, d) && Balanced(t2, d)
  {
    ChildOfParent(t, a, c, p);
    ChildOfParent(t, a, p, g);
    var S := SubtreeAt(t, g);
    var b := Paint(Paint(a, g, Red), p, Black);
    PaintTwo(a, g, p, Red, Black);
    RRFreeSubtree(t, true, Some(c), g, a);
    BalancedSubtree(t, g, a);
    LineLeft(S, ParentRedOf(t, g, true, a), a, b);
    SubtreeAtIds(t, g);
    RotRKeeps(S);
    PlugAt(t, g, RotR(S), Some(c), None, a, b);
    var t2 := RotateRightAt(t, g);
    ColorFrame(t2, true, None, None, b, d);
    ReplaceIds(t, g, RotR(S));
    RotationSite(t, a, g);
    RotateAtKeeps(t, g);
  }

  /** The line step with the parent on the right: the mirror image, with `rotate_left` at `g`. */
  lemma LineRightStep<V>(t: Shape, a: seq<Node<V>>, c: nat, p: nat, g: nat, d: seq<Node<V>>)
    requires Linked(t, None, a) && Distinct(t) && c in Ids(t)
    requires RRFree(t, true, Some(c), a) && Balanced(t, a) && IsRed(a, c)
    requires c < |a| && a[c].parent == Some(p) && p < |a| && IsRed(a, p) && a[p].parent == Some(g) && g < |a|
    requires a[g].left != Some(p) && a[p].left != Some(c)
    requires !(a[g].left.Some? && IsRed(a, a[g].left.value))
    requires Linked(RotateLeftAt(t, g), None, d) && SameColorsAll(Paint(Paint(a, g, Red), p, Black), d)
    ensures var t2 := RotateLeftAt(t, g);
      && Distinct(t2) && Ids(t2) == Ids(t) && InOrder(t2) == InOrder(t)
      && Root(t2) == (if a[g].parent.None? then Some(p) else Root(t))
      && RRFree(t2, true, None, d) && Balanced(t2, d)
  {
    ChildOfParent(t, a, c, p);
    ChildOfParent(t, a, p, g);
    var S := SubtreeAt(t, g);
    var b := Paint(Paint(a, g, Red), p, Black);
    PaintTwo(a, g, p, Red, Black);
    RRFreeSubtree(t, true, Some(c), g, a);
    BalancedSubtree(t, g, a);
    LineRight(S, ParentRedOf(t, g, true, a), a, b);
    SubtreeAtIds(t, g);
    RotLKeeps(S);
    PlugAt(t, g, RotL(S), Some(c), None, a, b);
    var t2 := RotateLeftAt(t, g);
    ColorFrame(t2, true, None, None, b, d);
    ReplaceIds(t, g, RotL(S));
    RotationSite(t, a, g);
    RotateAtKeeps(t, g);
  }

  /**
   * The triangle step with the parent on the left and `c` its right child: `rotate_left` at
   * the parent `p` (giving `d`) turns the bend into a line, with the only possible violation
   * now at `p`, below `c`. Colours stay, and the bend is gone.
   */
  lemma TriangleLeftStep<V>(t: Shape, a: seq<Node<V>>, c: nat, p: nat, g: nat, d: seq<Node<V>>)
    requires Linked(t, None, a) && Distinct(t) && c in Ids(t)
    requires RRFree(t, true, Some(c), a) && Balanced(t, a) && IsRed(a, c)
    requires c < |a| && a[c].parent == Some(p) && p < |a| && IsRed(a, p) && a[p].parent == Some(g) && g < |a|
    requires a[g].left == Some(p) && a[p].left != Some(c)
    requires a[p].right.Some? && a[p].right.value < |a| && RotatedLeft(a, d, p)
    ensures var t2 := RotateLeftAt(t, p);
      && Linked(t2, None, d) && Distinct(t2) && Ids(t2) == Ids(t) && InOrder(t2) == InOrder(t)
      && Root(t2) == Root(t) && p in Ids(t2) && IsRed(d, p)
      && RRFree(t2, true, Some(p), d) && Balanced(t2, d)
      && RedCount(d) == RedCount(a) && Bent(d, p) < Bent(a, c)
  {
    ChildOfParent(t, a, c, p);
    ChildOfParent(t, a, p, g);
    var S := SubtreeAt(t, p);
    RRFreeSubtree(t, true, Some(c), p, a);
    BalancedSubtree(t, p, a);
    TriangleLeft(S, ParentRedOf(t, p, true, a), a);
    SubtreeAtIds(t, p);
    RotLKeeps(S);
    PlugAt(t, p, RotL(S), Some(c), Some(p), a, a);
    var t2 := RotateLeftAt(t, p);
    RotatedLeftLinked(t, a, d, p);
    RotatedKeeps(a, d, p);
    ColorFrame(t2, true, Some(p), Some(p), a, d);
    RedCountSame(a, d);
    ReplaceIds(t, p, RotL(S));
    RotateAtKeeps(t, p);
    assert a[p].right == Some(c) && d[p].parent == Some(c) && d[c].parent == Some(g);
    assert d[g].left == Some(c) && d[c].left == Some(p);
  }

  /** The triangle step with the parent on the right: the mirror image, with `rotate_right` at `p`. */
  lemma TriangleRightStep<V>(t: Shape, a: seq<Node<V>>, c: nat, p: nat, g: nat, d: seq<Node<V>>)
    requires Linked(t, None, a) && Distinct(t) && c in Ids(t)
    requires RRFree(t, true, Some(c), a) && Balanced(t, a) && IsRed(a, c)
    requires c < |a| && a[c].parent == Some(p) && p < |a| && IsRed(a, p) && a[p].parent == Some(g) && g < |a|
    requires a[g].left != Some(p) && a[p].left == Some(c)
    requires a[p].left.Some? && a[p].left.value < |a| && RotatedRight(a, d, p)
    ensures var t2 := RotateRightAt(t, p);
      && Linked(t2, None, d) && Distinct(t2) && Ids(t2) == Ids(t) && InOrder(t2) == InOrder(t)
      && Root(t2) == Root(t) && p in Ids(t2) && IsRed(d, p)
      && RRFree(t2, true, Some(p), d) && Balanced(t2, d)
      && RedCount(d) == RedCount(a) && Bent(d, p) < Bent(a, c)
  {
    ChildOfParent(t, a, c, p);
    ChildOfParent(t, a, p, g);
    var S := SubtreeAt(t, p);
    RRFreeSubtree(t, true, Some(c), p, a);
    BalancedSubtree(t, p, a);
    TriangleRight(S, ParentRedOf(t, p, true, a), a);
    SubtreeAtIds(t, p);
    RotRKeeps(S);
    PlugAt(t, p, RotR(S), Some(c), Some(p), a, a);
    var t2 := RotateRightAt(t, p);
    RotatedRightLinked(t, a, d, p);
    RotatedKeeps(a, d, p);
    ColorFrame(t2, true, Some(p), Some(p), a, d);
    RedCountSame(a, d);
    ReplaceIds(t, p, RotR(S));
    RotateAtKeeps(t, p);
    var G := SubtreeAt(t, g);
    assert G.left.Fork? ==> G.left.id in Ids(G.left);
    assert c !in Ids(G.left);
    assert d[p].parent == Some(c) && d[c].parent == Some(g);
    assert d[g].left == a[g].left && a[g].left != Some(c);
    assert d[c].left == a[c].left && a[c].left != Some(p);
  }

  // ---------------------------------------------------------------------------------------
  // In-order navigation, for the iterator
  // ---------------------------------------------------------------------------------------

  /** The left-most cell of a shape: the first of its in-order sequence. */
  ghost function First(t: Shape): nat
  {
    match t
    case Nil => 0
    case Fork(i, l, _) => if l.Nil? then i else First(l)
  }

  /** The cells that come after the whole subtree of cell `n` in the in-order sequence. */
  ghost function Post(t: Shape, n: nat): seq<nat>
  {
    match t
    case Nil => []
    case Fork(i, l, r) =>
      if i == n then []
      else if n in Ids(l) then Post(l, n) + [i] + InOrder(r)
      else if n in Ids(r) then Post(r, n)
      else []
  }

  /** The cells that come before the whole subtree of cell `n` in the in-order sequence. */
  ghost function Pre(t: Shape, n: nat): seq<nat>
  {
    match t
    case Nil => []
    case Fork(i, l, r) =>
      if i == n then []
      else if n in Ids(l) then Pre(l, n)
      else if n in Ids(r) then InOrder(l) + [i] + Pre(r, n)
      else []
  }

  lemma {:induction false} FirstInOrder(t: Shape)
    requires t.Fork?
    ensures |InOrder(t)| > 0 && InOrder(t)[0] == First(t)
  {
    if t.left.Fork? {
      FirstInOrder(t.left);
    }
  }

  /** The in-order sequence is what precedes a subtree, the subtree, and what follows it. */
  lemma {:induction false} Decompose(t: Shape, n: nat)
    requires n in Ids(t)
    ensures InOrder(t) == Pre(t, n) + InOrder(SubtreeAt(t, n)) + Post(t, n)
  {
    match t
    case Fork(i, l, r) =>
      if i == n {
      } else if n in Ids(l) {
        Decompose(l, n);
      } else {
        Decompose(r, n);
      }
  }

  /**
   * Going up from a child to its parent `q`: what follows a right child is what follows `q`;
   * what follows a left child is `q`, the right subtree of `q`, and what follows `q`.
   */
  lemma {:induction false} PostChild(t: Shape, q: nat)
    requires Distinct(t) && q in Ids(t)
    ensures var s := SubtreeAt(t, q);
      && s.Fork?
      && (s.left.Fork? ==> Post(t, s.left.id) == [q] + InOrder(s.right) + Post(t, q))
      && (s.right.Fork? ==> Post(t, s.right.id) == Post(t, q))
  {
    match t
    case Fork(i, l, r) =>
      if i == q {
        if l.Fork? {
          assert l.id in Ids(l);
        }
        if r.Fork? {
          assert r.id in Ids(r);
        }
      } else if q in Ids(l) {
        PostChild(l, q);
        SubtreeAtIds(l, q);
        var s := SubtreeAt(l, q);
        if s.left.Fork? {
          assert s.left.id in Ids(s);
        }
        if s.right.Fork? {
          assert s.right.id in Ids(s);
        }
      } else {
        PostChild(r, q);
        SubtreeAtIds(r, q);
        var s := SubtreeAt(r, q);
        if s.left.Fork? {
          assert s.left.id in Ids(s);
        }
        if s.right.Fork? {
          assert s.right.id in Ids(s);
        }
      }
  }

  /** The subtree at a cell of a whole tree, and the links of that cell to its children. */
  lemma Around<V>(t: Shape, nodes: seq<Node<V>>, x: nat)
    requires Linked(t, None, nodes) && Distinct(t) && x in Ids(t)
    ensures x < |nodes|
    ensures var s := SubtreeAt(t, x);
      && s.Fork? && s.id == x && nodes[x].left == Root(s.left) && nodes[x].right == Root(s.right)
      && (s.left.Fork? ==> s.left.id in Ids(t) && SubtreeAt(t, s.left.id) == s.left)
      && (s.right.Fork? ==> s.right.id in Ids(t) && SubtreeAt(t, s.right.id) == s.right)
      && |InOrder(s)| <= |InOrder(t)|
  {
    SubtreeAtIds(t, x);
    SubtreeLinked(t, None, nodes, x);
    SubtreeChildren(t, x);
    Decompose(t, x);
    var s := SubtreeAt(t, x);
    if s.left.Fork? {
      assert s.left.id in Ids(s.left);
    }
    if s.right.Fork? {
      assert s.right.id in Ids(s.right);
    }
  }

  /**
   * The cells after position `j` of the in-order sequence: the right subtree of the cell at
   * `j`, then what follows that cell's whole subtree.
   */
  lemma NextPosition(t: Shape, c: nat, j: nat)
    requires Distinct(t) && j < |InOrder(t)| && InOrder(t)[j] == c
    ensures c in Ids(t)
    ensures var s := SubtreeAt(t, c);
      s.Fork? && InOrder(t)[j + 1..] == InOrder(s.right) + Post(t, c)
  {
    InOrderIds(t);
    assert c in InOrder(t);
    SubtreeAtIds(t, c);
    Decompose(t, c);
    var s := SubtreeAt(t, c);
    SplitAt(InOrder(t), Pre(t, c), InOrder(s), InOrder(s.left), c, InOrder(s.right), Post(t, c), j);
  }

  /** In a sequence without repeats, what follows the one occurrence of `c`. */
  lemma SplitAt(order: seq<nat>, before: seq<nat>, middle: seq<nat>, left: seq<nat>, c: nat, right: seq<nat>,
                after: seq<nat>, j: nat)
    requires order == before + middle + after && middle == left + [c] + right
    requires DistinctSeq(order) && j < |order| && order[j] == c
    ensures order[j + 1..] == right + after
  {
    assert order == (before + left) + [c] + (right + after);
    assert order[|before + left|] == c;
    assert j == |before + left|;
  }

  /**
   * What one round of `fix` reads around the cell `cur`, the only cell that may be red below
   * a red parent: its parent `p`, which holds `cur` in exactly one slot; when `p` is black
   * there is no violation at all; when `p` is red it is not the root and has a parent `g`,
   * whose children are cells of the arena.
   */
  lemma FixSite<V>(t: Shape, nodes: seq<Node<V>>, cur: nat)
    requires Linked(t, None, nodes) && Distinct(t) && t.Fork?
    requires cur in Ids(t) && RRFree(t, true, Some(cur), nodes)
    ensures cur < |nodes|
    ensures nodes[cur].parent.None? ==> t.id == cur
    ensures nodes[cur].parent.Some? ==>
      var p := nodes[cur].parent.value;
      && p in Ids(t) && p < |nodes| && p != cur
      && (nodes[p].left == Some(cur) <==> nodes[p].right != Some(cur))
      && (nodes[p].color == Black ==> RRFree(t, true, Some(t.id), nodes))
      && (nodes[p].color == Red ==>
            && nodes[p].parent.Some? && nodes[p].parent.value in Ids(t) && nodes[p].parent.value < |nodes|
            && var g := nodes[p].parent.value;
               && g != p && g != cur
               && (nodes[g].left == Some(p) <==> nodes[g].right != Some(p))
               && (nodes[g].left.Some? ==> nodes[g].left.value < |nodes| && nodes[g].left.value != g)
               && (nodes[g].right.Some? ==> nodes[g].right.value < |nodes| && nodes[g].right.value != g))
  {
    ParentInside(t, None, nodes, cur);
    if nodes[cur].parent.Some? {
      var p := nodes[cur].parent.value;
      ChildOfParent(t, nodes, cur, p);
      if nodes[p].color == Black {
        ParentRedLinked(t, None, true, nodes, cur);
        NoViolationBelowBlack(t, true, cur, nodes);
        RRFreeAllow(t, true, Some(t.id), nodes);
      } else {
        if nodes[p].parent.None? {
          OrphanIsRoot(t, nodes, p);
          assert false;
        }
        var g := nodes[p].parent.value;
        ChildOfParent(t, nodes, p, g);
        Around(t, nodes, g);
        LinkedBounds(t, None, nodes);
        var S := SubtreeAt(t, g);
        assert S.left.Fork? ==> S.left.id in Ids(S.left);
        assert S.right.Fork? ==> S.right.id in Ids(S.right);
        var P := SubtreeAt(t, p);
        assert cur in Ids(P) && P == (if nodes[g].left == Some(p) then S.left else S.right);
      }
    }
  }

  /** Painting a cell changes no link. */
  lemma PaintLinked<V>(t: Shape, parent: Option<nat>, nodes: seq<Node<V>>, i: nat, c: Color)
    requires Linked(t, parent, nodes) && i < |nodes|
    ensures Linked(t, parent, Paint(nodes, i, c))
  {
    LinkedBounds(t, parent, nodes);
    LinkedFrame(t, parent, nodes, Paint(nodes, i, c));
  }
}
