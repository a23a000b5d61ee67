/**
 * The red-black tree of tree/src/red_black.rs: `add` with its recursive descent `add_rec`
 * and the loop `fix` that repairs the colours, the rotations and `replace_child` they use,
 * the validity check `validate`, and in-order iteration.
 *
 * The nodes live in the arena `nodes` of the tree (see `RedBlackShape`); the ghost field
 * `shape` says which cells form the tree. `Contents` is what the tree maps: its keys and
 * values in order, and every operation is specified against it.
 */
module RedBlack {
  import opened Wrappers
  import opened SortedPairs
  import opened RedBlackShape

  // ---------------------------------------------------------------------------------------
  // What a tree holds
  // ---------------------------------------------------------------------------------------

  /** The key and value of each of the cells `ids`, in order (cells outside the arena give none). */
  ghost function PairsOf<V>(ids: seq<nat>, nodes: seq<Node<V>>): seq<Pair<V>>
  {
    if ids == [] then []
    else (if ids[0] < |nodes| then [(nodes[ids[0]].key, nodes[ids[0]].value)] else []) + PairsOf(ids[1..], nodes)
  }

  /** The pairs of a tree, in order. */
  ghost function Contents<V>(t: Shape, nodes: seq<Node<V>>): seq<Pair<V>>
  {
    PairsOf(InOrder(t), nodes)
  }

  lemma {:induction false} PairsOfAppend<V>(a: seq<nat>, b: seq<nat>, nodes: seq<Node<V>>)
    ensures PairsOf(a + b, nodes) == PairsOf(a, nodes) + PairsOf(b, nodes)
  {
    if a != [] {
      var head := if a[0] < |nodes| then [(nodes[a[0]].key, nodes[a[0]].value)] else [];
      assert (a + b)[0] == a[0] && (a + b)[1..] == a[1..] + b;
      assert PairsOf(a + b, nodes) == head + PairsOf(a[1..] + b, nodes);
      PairsOfAppend(a[1..], b, nodes);
      assert PairsOf(a, nodes) == head + PairsOf(a[1..], nodes);
    } else {
      assert a + b == b;
    }
  }

  /** Within the arena, the pairs are those of the cells, one each. */
  lemma {:induction false} PairsOfAt<V>(ids: seq<nat>, nodes: seq<Node<V>>)
    requires forall j :: 0 <= j < |ids| ==> ids[j] < |nodes|
    ensures |PairsOf(ids, nodes)| == |ids|
    ensures forall j :: 0 <= j < |ids| ==> PairsOf(ids, nodes)[j] == (nodes[ids[j]].key, nodes[ids[j]].value)
  {
    if ids != [] {
      var rest := ids[1..];
      assert forall j :: 0 <= j < |rest| ==> rest[j] == ids[j + 1];
      PairsOfAt(rest, nodes);
      forall j | 0 <= j < |ids|
        ensures PairsOf(ids, nodes)[j] == (nodes[ids[j]].key, nodes[ids[j]].value)
      {
        if j > 0 {
          assert ids[j] == rest[j - 1];
        }
      }
    }
  }

  /** The pairs read only keys and values. */
  lemma {:induction false} PairsOfFrame<V>(ids: seq<nat>, a: seq<Node<V>>, b: seq<Node<V>>)
    requires forall k :: k in ids ==> k < |a| && k < |b| && a[k].key == b[k].key && a[k].value == b[k].value
    ensures PairsOf(ids, a) == PairsOf(ids, b)
  {
    if ids != [] {
      assert forall k :: k in ids[1..] ==> k in ids;
      PairsOfFrame(ids[1..], a, b);
    }
  }

  lemma ContentsFork<V>(i: nat, l: Shape, r: Shape, nodes: seq<Node<V>>)
    requires i < |nodes|
    ensures Contents(Fork(i, l, r), nodes) == Contents(l, nodes) + [(nodes[i].key, nodes[i].value)] + Contents(r, nodes)
  {
    PairsOfAppend(InOrder(l) + [i], InOrder(r), nodes);
    PairsOfAppend(InOrder(l), [i], nodes);
    assert [i][1..] == [];
  }

  /** The contents of a tree read only the keys and values of its own cells. */
  lemma ContentsFrame<V>(t: Shape, a: seq<Node<V>>, b: seq<Node<V>>)
    requires Distinct(t)
    requires forall k :: k in Ids(t) ==> k < |a| && k < |b| && a[k].key == b[k].key && a[k].value == b[k].value
    ensures Contents(t, a) == Contents(t, b)
  {
    InOrderIds(t);
    PairsOfFrame(InOrder(t), a, b);
  }

  /** A tree in the arena has one pair per cell. */
  lemma ContentsLength<V>(t: Shape, parent: Option<nat>, nodes: seq<Node<V>>)
    requires Linked(t, parent, nodes) && Distinct(t)
    ensures |Contents(t, nodes)| == |InOrder(t)|
  {
    LinkedBounds(t, parent, nodes);
    InOrderIds(t);
    assert forall j :: 0 <= j < |InOrder(t)| ==> InOrder(t)[j] in Ids(t);
    PairsOfAt(InOrder(t), nodes);
  }

  /** Position `j` of the pairs of a tree holds the key and value of the cell at position `j` in order. */
  lemma ContentsAt<V>(t: Shape, nodes: seq<Node<V>>)
    requires Linked(t, None, nodes) && Distinct(t)
    ensures |Contents(t, nodes)| == |InOrder(t)|
    ensures forall j :: 0 <= j < |InOrder(t)| ==>
      InOrder(t)[j] < |nodes| && Contents(t, nodes)[j] == (nodes[InOrder(t)[j]].key, nodes[InOrder(t)[j]].value)
  {
    LinkedBounds(t, None, nodes);
    InOrderIds(t);
    assert forall j :: 0 <= j < |InOrder(t)| ==> InOrder(t)[j] in Ids(t);
    PairsOfAt(InOrder(t), nodes);
  }

  /** Around one element of a sorted sequence, the keys before are smaller and those after larger. */
  lemma SortedSplit<V>(a: seq<Pair<V>>, x: Pair<V>, b: seq<Pair<V>>)
    requires Sorted(a + [x] + b)
    ensures Sorted(a) && Sorted(b) && Below(a, x.0) && Above(b, x.0)
  {
    var s := a + [x] + b;
    forall i, j | 0 <= i < j < |a|
      ensures a[i].0 < a[j].0
    {
      assert a[i] == s[i] && a[j] == s[j];
    }
    forall i, j | 0 <= i < j < |b|
      ensures b[i].0 < b[j].0
    {
      assert b[i] == s[|a| + 1 + i] && b[j] == s[|a| + 1 + j];
    }
    forall i | 0 <= i < |b|
      ensures b[i].0 > x.0
    {
      assert b[i] == s[|a| + 1 + i] && x == s[|a|];
    }
    forall i | 0 <= i < |a|
      ensures a[i].0 < x.0
    {
      assert a[i] == s[i] && x == s[|a|];
    }
  }

  // ---------------------------------------------------------------------------------------
  // validate
  // ---------------------------------------------------------------------------------------

  /** The counts `validate` gathers: red cells under red parents, and the range of black heights. */
  datatype ValidationResult = ValidationResult(redRedCount: nat, blackHeightMin: nat, blackHeightMax: nat)
  {
    predicate IsValid()
    {
      redRedCount == 0 && blackHeightMin == blackHeightMax
    }
  }

  function Min(a: nat, b: nat): (m: nat)
    ensures m <= a && m <= b && (m == a || m == b)
  {
    if a <= b then a else b
  }

  function Max(a: nat, b: nat): (m: nat)
    ensures m >= a && m >= b && (m == a || m == b)
  {
    if a >= b then a else b
  }

  /** What a cell adds to the counts: a red-red pair, or one black cell. */
  function SelfCounts(color: Color, parentColor: Color): (nat, nat)
  {
    match color
    case Red => if parentColor == Red then (1, 0) else (0, 0)
    case Black => (0, 1)
  }

  /**
   * `validate` as the source writes it: the largest black height is computed with `min`,
   * like the smallest, so the two always agree and the height check never fails.
   */
  function ValidateAsWritten<V>(tree: Option<nat>, parentColor: Color, nodes: seq<Node<V>>,
    ghost t: Shape, ghost q: Option<nat>): (r: ValidationResult)
    requires Linked(t, q, nodes) && Root(t) == tree
    ensures r.blackHeightMin == r.blackHeightMax
    decreases t
  {
    match tree
    case None => ValidationResult(0, 1, 1)
    case Some(i) =>
      var node := nodes[i];
      var left := ValidateAsWritten(node.left, node.color, nodes, t.left, Some(i));
      var right := ValidateAsWritten(node.right, node.color, nodes, t.right, Some(i));
      var (selfRedRed, selfBlack) := SelfCounts(node.color, parentColor);
      ValidationResult(left.redRedCount + right.redRedCount + selfRedRed,
                       selfBlack + Min(left.blackHeightMin, right.blackHeightMin),
                       selfBlack + Min(left.blackHeightMax, right.blackHeightMax))
  }

  /** `validate` with the largest black height taken with `max`. */
  function Validate<V>(tree: Option<nat>, parentColor: Color, nodes: seq<Node<V>>,
    ghost t: Shape, ghost q: Option<nat>): (r: ValidationResult)
    requires Linked(t, q, nodes) && Root(t) == tree
    ensures r.blackHeightMin <= BH(t, nodes) <= r.blackHeightMax
    ensures r.blackHeightMin == r.blackHeightMax <==> Balanced(t, nodes)
    decreases t
  {
    match tree
    case None => ValidationResult(0, 1, 1)
    case Some(i) =>
      var node := nodes[i];
      var left := Validate(node.left, node.color, nodes, t.left, Some(i));
      var right := Validate(node.right, node.color, nodes, t.right, Some(i));
      var (selfRedRed, selfBlack) := SelfCounts(node.color, parentColor);
      ValidationResult(left.redRedCount + right.redRedCount + selfRedRed,
                       selfBlack + Min(left.blackHeightMin, right.blackHeightMin),
                       selfBlack + Max(left.blackHeightMax, right.blackHeightMax))
  }

  /** Both versions count the red cells under a red parent, none exactly when there are none. */
  lemma {:induction false} ValidateRedRed<V>(tree: Option<nat>, parentColor: Color, nodes: seq<Node<V>>, t: Shape, q: Option<nat>)
    requires Linked(t, q, nodes) && Root(t) == tree
    ensures ValidateAsWritten(tree, parentColor, nodes, t, q).redRedCount == Validate(tree, parentColor, nodes, t, q).redRedCount
    ensures Validate(tree, parentColor, nodes, t, q).redRedCount == 0 <==> RRFree(t, parentColor == Red, None, nodes)
    decreases t
  {
    match t
    case Nil =>
    case Fork(i, l, r) =>
      ValidateRedRed(nodes[i].left, nodes[i].color, nodes, l, Some(i));
      ValidateRedRed(nodes[i].right, nodes[i].color, nodes, r, Some(i));
  }

  /**
   * The as-written check accepts a tree exactly when no red cell has a red parent (the root
   * counting as one): it cannot see unequal black heights.
   */
  lemma ValidateAsWrittenAccepts<V>(root: Option<nat>, nodes: seq<Node<V>>, t: Shape)
    requires Linked(t, None, nodes) && Root(t) == root
    ensures ValidateAsWritten(root, Red, nodes, t, None).IsValid() <==> RRFree(t, true, None, nodes)
  {
    ValidateRedRed(root, Red, nodes, t, None);
  }

  /** The corrected check accepts a tree exactly when it satisfies both red-black conditions. */
  lemma ValidateAccepts<V>(root: Option<nat>, nodes: seq<Node<V>>, t: Shape)
    requires Linked(t, None, nodes) && Root(t) == root
    ensures Validate(root, Red, nodes, t, None).IsValid() <==> RRFree(t, true, None, nodes) && Balanced(t, nodes)
  {
    ValidateRedRed(root, Red, nodes, t, None);
  }

  /**
   * A black root with a single black child: one path meets two black cells and one only,
   * yet the as-written check accepts it. The corrected one rejects it.
   */
  lemma ValidateMinSlip()
    ensures var nodes := [Node(2, 20, Black, None, Some(1), None), Node(1, 10, Black, Some(0), None, None)];
      var t := Fork(0, Fork(1, Nil, Nil), Nil);
      && Linked(t, None, nodes) && Distinct(t) && !Balanced(t, nodes)
      && ValidateAsWritten(Some(0), Red, nodes, t, None).IsValid()
      && !Validate(Some(0), Red, nodes, t, None).IsValid()
  {
    var nodes := [Node(2, 20, Black, None, Some(1), None), Node(1, 10, Black, Some(0), None, None)];
    var t := Fork(0, Fork(1, Nil, Nil), Nil);
    assert BH(Fork(1, Nil, Nil), nodes) == 2;
    ValidateAsWrittenAccepts(Some(0), nodes, t);
  }

  /**
   * The subtree a recursive `add_rec` returns keeps apart from its parent `i` and from the
   * sibling subtree: it holds the old cells and at most the new one, `size`, beyond the arena.
   */
  lemma NewSubtreeApart(i: nat, t: Shape, t2: Shape, sibling: Shape, added: Option<nat>, size: nat)
    requires Distinct(Fork(i, t, sibling)) || Distinct(Fork(i, sibling, t))
    requires i < size && forall k :: k in Ids(sibling) ==> k < size
    requires added.None? ==> t2 == t
    requires added.Some? ==> added.value == size && Ids(t2) == Ids(t) + {added.value}
    ensures i !in Ids(t2) && Ids(t2) !! Ids(sibling)
  {
    forall k | k in Ids(t2)
      ensures k != i && k !in Ids(sibling)
    {
      if k !in Ids(t) {
        assert k == size;
      }
    }
  }

  /**
   * The step of `add_rec` that went left at cell `i`, with arenas `a` before the
   * recursive call, `m` after it and `b` after relinking `i` to the new left subtree `l2`
   * (which holds the cell `added`, if one was attached): the links describe the new subtree.
   */
  lemma {:induction false} GraftLeftLinks<V>(i: nat, parent: Option<nat>, l: Shape, l2: Shape, r: Shape, added: Option<nat>,
    a: seq<Node<V>>, m: seq<Node<V>>, b: seq<Node<V>>)
    requires i < |a| && Linked(Fork(i, l, r), parent, a) && Distinct(Fork(i, l, r))
    requires Linked(l2, Some(i), m) && |m| == |a| + (if added.Some? then 1 else 0)
    requires added.None? ==> l2 == l
    requires added.Some? ==> added.value == |a| && Ids(l2) == Ids(l) + {added.value}
    requires b == m[i := m[i].(left := Root(l2))]
    requires Distinct(l2) && Root(l2).Some?
    requires forall k :: 0 <= k < |a| && k !in Ids(l) ==> m[k] == a[k]
    requires added.None? ==> forall k :: 0 <= k < |m| ==> SameLinks(m[k], a[k])
    ensures Linked(Fork(i, l2, r), parent, b) && Distinct(Fork(i, l2, r))
    ensures added.None? ==> forall k :: 0 <= k < |b| ==> SameLinks(b[k], a[k])
  {
    LinkedBounds(l2, Some(i), m);
    LinkedBounds(r, Some(i), a);
    NewSubtreeApart(i, l, l2, r, added, |a|);
    forall k | k in Ids(l2)
      ensures k < |m| && k < |b| && SameLinks(m[k], b[k])
    {
      assert k != i;
    }
    LinkedFrame(l2, Some(i), m, b);
    forall k | k in Ids(r)
      ensures k < |a| && k < |b| && SameLinks(a[k], b[k])
    {
      assert k != i && k !in Ids(l) && b[k] == m[k];
    }
    LinkedFrame(r, Some(i), a, b);
  }

  /** The same step: the new subtree holds the new pair in order. */
  lemma {:induction false} GraftLeftContents<V>(i: nat, parent: Option<nat>, l: Shape, l2: Shape, r: Shape, added: Option<nat>, p: Pair<V>,
    a: seq<Node<V>>, m: seq<Node<V>>, b: seq<Node<V>>)
    requires i < |a| && Linked(Fork(i, l, r), parent, a) && Distinct(Fork(i, l, r))
    requires Linked(l2, Some(i), m) && |m| == |a| + (if added.Some? then 1 else 0)
    requires added.None? ==> l2 == l
    requires added.Some? ==> added.value == |a| && Ids(l2) == Ids(l) + {added.value}
    requires b == m[i := m[i].(left := Root(l2))]
    requires Distinct(l2) && Sorted(Contents(Fork(i, l, r), a)) && p.0 < a[i].key
    requires Contents(l2, m) == InsertSorted(Contents(l, a), p)
    requires forall k :: 0 <= k < |a| && k !in Ids(l) ==> m[k] == a[k]
    ensures Contents(Fork(i, l2, r), b) == InsertSorted(Contents(Fork(i, l, r), a), p)
    ensures Get(Contents(Fork(i, l, r), a), p.0) == Get(Contents(l, a), p.0)
  {
    LinkedBounds(l2, Some(i), m);
    LinkedBounds(r, Some(i), a);
    NewSubtreeApart(i, l, l2, r, added, |a|);
    forall k | k in Ids(l2)
      ensures k < |m| && k < |b| && m[k].key == b[k].key && m[k].value == b[k].value
    {
      assert k != i;
    }
    ContentsFrame(l2, m, b);
    forall k | k in Ids(r)
      ensures k < |a| && k < |b| && a[k].key == b[k].key && a[k].value == b[k].value
    {
      assert k != i && k !in Ids(l) && b[k] == m[k];
    }
    ContentsFrame(r, a, b);
    var here := (a[i].key, a[i].value);
    assert b[i].key == a[i].key && b[i].value == a[i].value;
    ContentsFork(i, l, r, a);
    ContentsFork(i, l2, r, b);
    InsertBefore(Contents(l, a), here, Contents(r, a), p);
  }

  /** The same step: colours and black heights, and the cells outside, stay. */
  lemma {:induction false} GraftLeftColors<V>(i: nat, parent: Option<nat>, l: Shape, l2: Shape, r: Shape, added: Option<nat>,
    a: seq<Node<V>>, m: seq<Node<V>>, b: seq<Node<V>>, pr: bool)
    requires i < |a| && Linked(Fork(i, l, r), parent, a) && Distinct(Fork(i, l, r))
    requires Linked(l2, Some(i), m) && |m| == |a| + (if added.Some? then 1 else 0)
    requires added.None? ==> l2 == l
    requires added.Some? ==> added.value == |a| && Ids(l2) == Ids(l) + {added.value}
    requires b == m[i := m[i].(left := Root(l2))]
    requires forall k :: 0 <= k < |a| ==>
      && m[k].color == a[k].color && m[k].key == a[k].key
      && (k !in Ids(l) ==> m[k] == a[k])
    requires RRFree(l, IsRed(a, i), None, a) ==> RRFree(l2, IsRed(a, i), added, m)
    requires Balanced(l, a) ==> Balanced(l2, m) && BH(l2, m) == BH(l, a)
    ensures forall k :: 0 <= k < |a| ==>
      && b[k].color == a[k].color && b[k].key == a[k].key
      && (k !in Ids(Fork(i, l, r)) ==> b[k] == a[k])
    ensures RRFree(Fork(i, l, r), pr, None, a) ==> RRFree(Fork(i, l2, r), pr, added, b)
    ensures Balanced(Fork(i, l, r), a) ==> Balanced(Fork(i, l2, r), b) && BH(Fork(i, l2, r), b) == BH(Fork(i, l, r), a)
  {
    LinkedBounds(l2, Some(i), m);
    LinkedBounds(r, Some(i), a);
    NewSubtreeApart(i, l, l2, r, added, |a|);
    forall k | k in Ids(l2)
      ensures IsRed(m, k) == IsRed(b, k)
    {
      assert k != i;
    }
    forall k | k in Ids(r)
      ensures IsRed(a, k) == IsRed(b, k)
    {
      assert k != i && k !in Ids(l) && b[k] == m[k];
    }
    assert IsRed(b, i) == IsRed(a, i);
    ColorFrame(l2, IsRed(a, i), added, added, m, b);
    ColorFrame(r, IsRed(a, i), None, added, a, b);
  }

  /**
   * The step of `add_rec` that went right at cell `i`, with arenas `a` before the
   * recursive call, `m` after it and `b` after relinking `i` to the new right subtree `r2`
   * (which holds the cell `added`, if one was attached): the links describe the new subtree.
   */
  lemma {:induction false} GraftRightLinks<V>(i: nat, parent: Option<nat>, l: Shape, r: Shape, r2: Shape, added: Option<nat>,
    a: seq<Node<V>>, m: seq<Node<V>>, b: seq<Node<V>>)
    requires i < |a| && Linked(Fork(i, l, r), parent, a) && Distinct(Fork(i, l, r))
    requires Linked(r2, Some(i), m) && |m| == |a| + (if added.Some? then 1 else 0)
    requires added.None? ==> r2 == r
    requires added.Some? ==> added.value == |a| && Ids(r2) == Ids(r) + {added.value}
    requires b == m[i := m[i].(right := Root(r2))]
    requires Distinct(r2) && Root(r2).Some?
    requires forall k :: 0 <= k < |a| && k !in Ids(r) ==> m[k] == a[k]
    requires added.None? ==> forall k :: 0 <= k < |m| ==> SameLinks(m[k], a[k])
    ensures Linked(Fork(i, l, r2), parent, b) && Distinct(Fork(i, l, r2))
    ensures added.None? ==> forall k :: 0 <= k < |b| ==> SameLinks(b[k], a[k])
  {
    LinkedBounds(r2, Some(i), m);
    LinkedBounds(l, Some(i), a);
    NewSubtreeApart(i, r, r2, l, added, |a|);
    forall k | k in Ids(r2)
      ensures k < |m| && k < |b| && SameLinks(m[k], b[k])
    {
      assert k != i;
    }
    LinkedFrame(r2, Some(i), m, b);
    forall k | k in Ids(l)
      ensures k < |a| && k < |b| && SameLinks(a[k], b[k])
    {
      assert k != i && k !in Ids(r) && b[k] == m[k];
    }
    LinkedFrame(l, Some(i), a, b);
  }

  /** The same step: the new subtree holds the new pair in order. */
  lemma {:induction false} GraftRightContents<V>(i: nat, parent: Option<nat>, l: Shape, r: Shape, r2: Shape, added: Option<nat>, p: Pair<V>,
    a: seq<Node<V>>, m: seq<Node<V>>, b: seq<Node<V>>)
    requires i < |a| && Linked(Fork(i, l, r), parent, a) && Distinct(Fork(i, l, r))
    requires Linked(r2, Some(i), m) && |m| == |a| + (if added.Some? then 1 else 0)
    requires added.None? ==> r2 == r
    requires added.Some? ==> added.value == |a| && Ids(r2) == Ids(r) + {added.value}
    requires b == m[i := m[i].(right := Root(r2))]
    requires Distinct(r2) && Sorted(Contents(Fork(i, l, r), a)) && p.0 > a[i].key
    requires Contents(r2, m) == InsertSorted(Contents(r, a), p)
    requires forall k :: 0 <= k < |a| && k !in Ids(r) ==> m[k] == a[k]
    ensures Contents(Fork(i, l, r2), b) == InsertSorted(Contents(Fork(i, l, r), a), p)
    ensures Get(Contents(Fork(i, l, r), a), p.0) == Get(Contents(r, a), p.0)
  {
    LinkedBounds(r2, Some(i), m);
    LinkedBounds(l, Some(i), a);
    NewSubtreeApart(i, r, r2, l, added, |a|);
    forall k | k in Ids(r2)
      ensures k < |m| && k < |b| && m[k].key == b[k].key && m[k].value == b[k].value
    {
      assert k != i;
    }
    ContentsFrame(r2, m, b);
    forall k | k in Ids(l)
      ensures k < |a| && k < |b| && a[k].key == b[k].key && a[k].value == b[k].value
    {
      assert k != i && k !in Ids(r) && b[k] == m[k];
    }
    ContentsFrame(l, a, b);
    var here := (a[i].key, a[i].value);
    assert b[i].key == a[i].key && b[i].value == a[i].value;
    ContentsFork(i, l, r, a);
    ContentsFork(i, l, r2, b);
    InsertAfter(Contents(l, a), here, Contents(r, a), p);
  }

  /** The same step: colours and black heights, and the cells outside, stay. */
  lemma {:induction false} GraftRightColors<V>(i: nat, parent: Option<nat>, l: Shape, r: Shape, r2: Shape, added: Option<nat>,
    a: seq<Node<V>>, m: seq<Node<V>>, b: seq<Node<V>>, pr: bool)
    requires i < |a| && Linked(Fork(i, l, r), parent, a) && Distinct(Fork(i, l, r))
    requires Linked(r2, Some(i), m) && |m| == |a| + (if added.Some? then 1 else 0)
    requires added.None? ==> r2 == r
    requires added.Some? ==> added.value == |a| && Ids(r2) == Ids(r) + {added.value}
    requires b == m[i := m[i].(right := Root(r2))]
    requires forall k :: 0 <= k < |a| ==>
      && m[k].color == a[k].color && m[k].key == a[k].key
      && (k !in Ids(r) ==> m[k] == a[k])
    requires RRFree(r, IsRed(a, i), None, a) ==> RRFree(r2, IsRed(a, i), added, m)
    requires Balanced(r, a) ==> Balanced(r2, m) && BH(r2, m) == BH(r, a)
    ensures forall k :: 0 <= k < |a| ==>
      && b[k].color == a[k].color && b[k].key == a[k].key
      && (k !in Ids(Fork(i, l, r)) ==> b[k] == a[k])
    ensures RRFree(Fork(i, l, r), pr, None, a) ==> RRFree(Fork(i, l, r2), pr, added, b)
    ensures Balanced(Fork(i, l, r), a) ==> Balanced(Fork(i, l, r2), b) && BH(Fork(i, l, r2), b) == BH(Fork(i, l, r), a)
  {
    LinkedBounds(r2, Some(i), m);
    LinkedBounds(l, Some(i), a);
    NewSubtreeApart(i, r, r2, l, added, |a|);
    forall k | k in Ids(r2)
      ensures IsRed(m, k) == IsRed(b, k)
    {
      assert k != i;
    }
    forall k | k in Ids(l)
      ensures IsRed(a, k) == IsRed(b, k)
    {
      assert k != i && k !in Ids(r) && b[k] == m[k];
    }
    assert IsRed(b, i) == IsRed(a, i);
    ColorFrame(r2, IsRed(a, i), added, added, m, b);
    ColorFrame(l, IsRed(a, i), None, added, a, b);
  }

  /**
   * The step of `add_rec` that went left at cell `i`: what the recursive call promised
   * of the left subtree (arena `a` to `m`, new subtree root `sub`), and the relinking of `i`
   * (giving `b`), give the same promise of the whole subtree at `i`.
   */
  lemma {:induction false} GraftLeft<V>(i: nat, parent: Option<nat>, l: Shape, l2: Shape, r: Shape, sub: nat, out: AddOutcome<V>, p: Pair<V>,
    a: seq<Node<V>>, m: seq<Node<V>>, b: seq<Node<V>>, pr: bool)
    requires i < |a| && Linked(Fork(i, l, r), parent, a) && Distinct(Fork(i, l, r))
    requires Sorted(Contents(Fork(i, l, r), a)) && p.0 < a[i].key
    requires Linked(l2, Some(i), m) && Distinct(l2) && Root(l2) == Some(sub)
    requires Contents(l2, m) == InsertSorted(Contents(l, a), p)
    requires out.Swapped? <==> Get(Contents(l, a), p.0).Some?
    requires out.Swapped? ==> Get(Contents(l, a), p.0) == Some(out.previous)
    requires |m| == |a| + (if out.Attached? then 1 else 0)
    requires out.Swapped? ==> l2 == l && forall k :: 0 <= k < |m| ==> SameLinks(m[k], a[k])
    requires out.Attached? ==>
      && out.cell == |a| && Ids(l2) == Ids(l) + {out.cell}
      && m[out.cell] == Node(p.0, p.1, Red, m[out.cell].parent, None, None)
    requires forall k :: 0 <= k < |a| ==>
      && m[k].color == a[k].color && m[k].key == a[k].key
      && (k !in Ids(l) ==> m[k] == a[k])
    requires RRFree(l, IsRed(a, i), None, a) ==>
      RRFree(l2, IsRed(a, i), if out.Attached? then Some(out.cell) else None, m)
    requires Balanced(l, a) ==> Balanced(l2, m) && BH(l2, m) == BH(l, a)
    requires b == m[i := m[i].(left := Some(sub))]
    ensures Linked(Fork(i, l2, r), parent, b) && Distinct(Fork(i, l2, r)) && Root(Fork(i, l2, r)) == Some(i)
    ensures Contents(Fork(i, l2, r), b) == InsertSorted(Contents(Fork(i, l, r), a), p)
    ensures out.Swapped? <==> Get(Contents(Fork(i, l, r), a), p.0).Some?
    ensures out.Swapped? ==> Get(Contents(Fork(i, l, r), a), p.0) == Some(out.previous)
    ensures |b| == |a| + (if out.Attached? then 1 else 0)
    ensures out.Swapped? ==> Fork(i, l2, r) == Fork(i, l, r) && forall k :: 0 <= k < |b| ==> SameLinks(b[k], a[k])
    ensures out.Attached? ==>
      && out.cell == |a| && Ids(Fork(i, l2, r)) == Ids(Fork(i, l, r)) + {out.cell}
      && b[out.cell] == Node(p.0, p.1, Red, b[out.cell].parent, None, None)
    ensures forall k :: 0 <= k < |a| ==>
      && b[k].color == a[k].color && b[k].key == a[k].key
      && (k !in Ids(Fork(i, l, r)) ==> b[k] == a[k])
    ensures RRFree(Fork(i, l, r), pr, None, a) ==>
      RRFree(Fork(i, l2, r), pr, if out.Attached? then Some(out.cell) else None, b)
    ensures Balanced(Fork(i, l, r), a) ==> Balanced(Fork(i, l2, r), b) && BH(Fork(i, l2, r), b) == BH(Fork(i, l, r), a)
  {
    var added := if out.Attached? then Some(out.cell) else None;
    GraftLeftLinks(i, parent, l, l2, r, added, a, m, b);
    GraftLeftContents(i, parent, l, l2, r, added, p, a, m, b);
    GraftLeftColors(i, parent, l, l2, r, added, a, m, b, pr);
  }

  /**
   * The step of `add_rec` that went right at cell `i`: what the recursive call promised
   * of the right subtree (arena `a` to `m`, new subtree root `sub`), and the relinking of `i`
   * (giving `b`), give the same promise of the whole subtree at `i`.
   */
  lemma {:induction false} GraftRight<V>(i: nat, parent: Option<nat>, l: Shape, r: Shape, r2: Shape, sub: nat, out: AddOutcome<V>, p: Pair<V>,
    a: seq<Node<V>>, m: seq<Node<V>>, b: seq<Node<V>>, pr: bool)
    requires i < |a| && Linked(Fork(i, l, r), parent, a) && Distinct(Fork(i, l, r))
    requires Sorted(Contents(Fork(i, l, r), a)) && p.0 > a[i].key
    requires Linked(r2, Some(i), m) && Distinct(r2) && Root(r2) == Some(sub)
    requires Contents(r2, m) == InsertSorted(Contents(r, a), p)
    requires out.Swapped? <==> Get(Contents(r, a), p.0).Some?
    requires out.Swapped? ==> Get(Contents(r, a), p.0) == Some(out.previous)
    requires |m| == |a| + (if out.Attached? then 1 else 0)
    requires out.Swapped? ==> r2 == r && forall k :: 0 <= k < |m| ==> SameLinks(m[k], a[k])
    requires out.Attached? ==>
      && out.cell == |a| && Ids(r2) == Ids(r) + {out.cell}
      && m[out.cell] == Node(p.0, p.1, Red, m[out.cell].parent, None, None)
    requires forall k :: 0 <= k < |a| ==>
      && m[k].color == a[k].color && m[k].key == a[k].key
      && (k !in Ids(r) ==> m[k] == a[k])
    requires RRFree(r, IsRed(a, i), None, a) ==>
      RRFree(r2, IsRed(a, i), if out.Attached? then Some(out.cell) else None, m)
    requires Balanced(r, a) ==> Balanced(r2, m) && BH(r2, m) == BH(r, a)
    requires b == m[i := m[i].(right := Some(sub))]
    ensures Linked(Fork(i, l, r2), parent, b) && Distinct(Fork(i, l, r2)) && Root(Fork(i, l, r2)) == Some(i)
    ensures Contents(Fork(i, l, r2), b) == InsertSorted(Contents(Fork(i, l, r), a), p)
    ensures out.Swapped? <==> Get(Contents(Fork(i, l, r), a), p.0).Some?
    ensures out.Swapped? ==> Get(Contents(Fork(i, l, r), a), p.0) == Some(out.previous)
    ensures |b| == |a| + (if out.Attached? then 1 else 0)
    ensures out.Swapped? ==> Fork(i, l, r2) == Fork(i, l, r) && forall k :: 0 <= k < |b| ==> SameLinks(b[k], a[k])
    ensures out.Attached? ==>
      && out.cell == |a| && Ids(Fork(i, l, r2)) == Ids(Fork(i, l, r)) + {out.cell}
      && b[out.cell] == Node(p.0, p.1, Red, b[out.cell].parent, None, None)
    ensures forall k :: 0 <= k < |a| ==>
      && b[k].color == a[k].color && b[k].key == a[k].key
      && (k !in Ids(Fork(i, l, r)) ==> b[k] == a[k])
    ensures RRFree(Fork(i, l, r), pr, None, a) ==>
      RRFree(Fork(i, l, r2), pr, if out.Attached? then Some(out.cell) else None, b)
    ensures Balanced(Fork(i, l, r), a) ==> Balanced(Fork(i, l, r2), b) && BH(Fork(i, l, r2), b) == BH(Fork(i, l, r), a)
  {
    var added := if out.Attached? then Some(out.cell) else None;
    GraftRightLinks(i, parent, l, r, r2, added, a, m, b);
    GraftRightContents(i, parent, l, r, r2, added, p, a, m, b);
    GraftRightColors(i, parent, l, r, r2, added, a, m, b, pr);
  }

  /**
   * The step of `add_rec` that found the key at cell `i` and swapped in the new value: the
   * pair at that place is replaced, and the old value is what the tree held for the key.
   */
  lemma SwapHere<V>(i: nat, parent: Option<nat>, l: Shape, r: Shape, p: Pair<V>,
    a: seq<Node<V>>, b: seq<Node<V>>, pr: bool)
    requires i < |a| && Linked(Fork(i, l, r), parent, a) && Distinct(Fork(i, l, r))
    requires Sorted(Contents(Fork(i, l, r), a)) && p.0 == a[i].key
    requires b == a[i := a[i].(value := p.1)]
    ensures Linked(Fork(i, l, r), parent, b)
    ensures Contents(Fork(i, l, r), b) == InsertSorted(Contents(Fork(i, l, r), a), p)
    ensures Get(Contents(Fork(i, l, r), a), p.0) == Some(a[i].value)
    ensures RRFree(Fork(i, l, r), pr, None, a) ==> RRFree(Fork(i, l, r), pr, None, b)
    ensures Balanced(Fork(i, l, r), a) ==> Balanced(Fork(i, l, r), b) && BH(Fork(i, l, r), b) == BH(Fork(i, l, r), a)
  {
    SwapHereLinks(i, parent, l, r, p, a, b, pr);
    SwapHereContents(i, parent, l, r, p, a, b);
  }

  /** The swap changes no link and no colour. */
  lemma SwapHereLinks<V>(i: nat, parent: Option<nat>, l: Shape, r: Shape, p: Pair<V>,
    a: seq<Node<V>>, b: seq<Node<V>>, pr: bool)
    requires i < |a| && Linked(Fork(i, l, r), parent, a)
    requires b == a[i := a[i].(value := p.1)]
    ensures Linked(Fork(i, l, r), parent, b)
    ensures RRFree(Fork(i, l, r), pr, None, a) ==> RRFree(Fork(i, l, r), pr, None, b)
    ensures Balanced(Fork(i, l, r), a) ==> Balanced(Fork(i, l, r), b) && BH(Fork(i, l, r), b) == BH(Fork(i, l, r), a)
  {
    var s := Fork(i, l, r);
    LinkedBounds(s, parent, a);
    LinkedFrame(s, parent, a, b);
    ColorFrame(s, pr, None, None, a, b);
  }

  /** The swap replaces the pair at cell `i`, which holds the key's old value. */
  lemma SwapHereContents<V>(i: nat, parent: Option<nat>, l: Shape, r: Shape, p: Pair<V>,
    a: seq<Node<V>>, b: seq<Node<V>>)
    requires i < |a| && Linked(Fork(i, l, r), parent, a) && Distinct(Fork(i, l, r))
    requires Sorted(Contents(Fork(i, l, r), a)) && p.0 == a[i].key
    requires b == a[i := a[i].(value := p.1)]
    ensures Contents(Fork(i, l, r), b) == InsertSorted(Contents(Fork(i, l, r), a), p)
    ensures Get(Contents(Fork(i, l, r), a), p.0) == Some(a[i].value)
  {
    var s := Fork(i, l, r);
    LinkedBounds(s, parent, a);
    assert Distinct(l) && Distinct(r) && i !in Ids(l) && i !in Ids(r);
    forall k | k in Ids(l) + Ids(r)
      ensures k < |a| && k < |b| && a[k] == b[k]
    {
      assert k in Ids(s);
    }
    ContentsFrame(l, a, b);
    ContentsFrame(r, a, b);
    ContentsFork(i, l, r, a);
    ContentsFork(i, l, r, b);
    ReplaceSorted(Contents(l, a), (a[i].key, a[i].value), Contents(r, a), p);
  }

  /** In sorted pairs, putting a pair whose key is present replaces that key's pair. */
  lemma ReplaceSorted<V>(x: seq<Pair<V>>, q: Pair<V>, z: seq<Pair<V>>, p: Pair<V>)
    requires Sorted(x + [q] + z) && q.0 == p.0
    ensures InsertSorted(x + [q] + z, p) == x + [p] + z
    ensures Get(x + [q] + z, p.0) == Some(q.1)
  {
    var s := x + [q] + z;
    assert s[|x|] == q;
    InsertSortedAt(s, |x|, p);
    GetAt(s, |x|);
    assert s[|x| := p] == x + [p] + z;
  }

  // ---------------------------------------------------------------------------------------
  // The rounds of fix
  // ---------------------------------------------------------------------------------------

  /**
   * The loop invariant of `fix`: the links describe `t`, a rearrangement of the tree `t0`
   * with the same cells in the same order, keys and values are those of the arena `a0`,
   * `cur` is red and the only cell that may have a red parent, and every path meets equally
   * many black cells.
   */
  ghost predicate FixInvariant<V>(t: Shape, t0: Shape, root: nat, cur: nat, a0: seq<Node<V>>, nodes: seq<Node<V>>)
  {
    && Linked(t, None, nodes) && Distinct(t) && Root(t) == Some(root)
    && Ids(t) == Ids(t0) && InOrder(t) == InOrder(t0) && SameData(a0, nodes)
    && cur in Ids(t) && IsRed(nodes, cur)
    && RRFree(t, true, Some(cur), nodes) && Balanced(t, nodes)
  }

  /** A round of `fix` with a red uncle `u` keeps the invariant at the grandparent, with fewer red cells. */
  lemma UncleRound<V>(t: Shape, t0: Shape, root: nat, c: nat, a0: seq<Node<V>>, a: seq<Node<V>>, p: nat, g: nat, u: nat)
    requires FixInvariant(t, t0, root, c, a0, a)
    requires c < |a| && a[c].parent == Some(p) && p < |a| && IsRed(a, p) && a[p].parent == Some(g) && g < |a|
    requires Some(u) == (if a[g].left == Some(p) then a[g].right else a[g].left) && IsRed(a, u)
    ensures var b := Paint(Paint(Paint(a, u, Black), p, Black), g, Red);
      FixInvariant(t, t0, root, g, a0, b) && RedCount(b) < RedCount(a)
  {
    FixSite(t, a, c);
    UncleStep(t, a, c, p, g, u);
    PaintThree(a, u, p, g, Black, Black, Red);
  }

  /**
   * A round of `fix` in the triangle case with the parent on the left: after `rotate_left`
   * at the parent (`a` to `d`) the invariant holds at the parent, with as many red cells
   * and no bend left.
   */
  lemma TriangleLeftRound<V>(t: Shape, t0: Shape, root: nat, c: nat, a0: seq<Node<V>>, a: seq<Node<V>>, p: nat, g: nat, d: seq<Node<V>>)
    requires FixInvariant(t, t0, root, c, a0, a)
    requires c < |a| && a[c].parent == Some(p) && p < |a| && IsRed(a, p) && a[p].parent == Some(g) && g < |a|
    requires a[g].left == Some(p) && a[p].left != Some(c)
    requires a[p].right.Some? && a[p].right.value < |a| && RotatedLeft(a, d, p) && SameData(a, d)
    ensures FixInvariant(RotateLeftAt(t, p), t0, root, p, a0, d)
    ensures RedCount(d) == RedCount(a) && Bent(d, p) < Bent(a, c)
  {
    TriangleLeftStep(t, a, c, p, g, d);
  }

  /** The triangle case with the parent on the right: the mirror image, with `rotate_right`. */
  lemma TriangleRightRound<V>(t: Shape, t0: Shape, root: nat, c: nat, a0: seq<Node<V>>, a: seq<Node<V>>, p: nat, g: nat, d: seq<Node<V>>)
    requires FixInvariant(t, t0, root, c, a0, a)
    requires c < |a| && a[c].parent == Some(p) && p < |a| && IsRed(a, p) && a[p].parent == Some(g) && g < |a|
    requires a[g].left != Some(p) && a[p].left == Some(c)
    requires a[p].left.Some? && a[p].left.value < |a| && RotatedRight(a, d, p) && SameData(a, d)
    ensures FixInvariant(RotateRightAt(t, p), t0, root, p, a0, d)
    ensures RedCount(d) == RedCount(a) && Bent(d, p) < Bent(a, c)
  {
    TriangleRightStep(t, a, c, p, g, d);
  }

  /**
   * The last round of `fix` in the line case with the parent on the left: grandparent painted
   * red, parent black, `rotate_right` at the grandparent (`d`). The tree is then a valid
   * red-black tree, rooted at the parent if the grandparent was the root.
   */
  lemma LineLeftRound<V>(t: Shape, t0: Shape, root: nat, c: nat, a0: seq<Node<V>>, a: seq<Node<V>>, p: nat, g: nat, d: seq<Node<V>>)
    requires FixInvariant(t, t0, root, c, a0, a)
    requires c < |a| && a[c].parent == Some(p) && p < |a| && IsRed(a, p) && a[p].parent == Some(g) && g < |a|
    requires a[g].left == Some(p) && a[p].left == Some(c)
    requires !(a[g].right.Some? && IsRed(a, a[g].right.value))
    requires Linked(RotateRightAt(t, g), None, d)
    requires SameColorsAll(Paint(Paint(a, g, Red), p, Black), d) && SameData(Paint(Paint(a, g, Red), p, Black), d)
    ensures var t2 := RotateRightAt(t, g);
      && Linked(t2, None, d) && Distinct(t2) && Root(t2) == (if a[g].parent.None? then Some(p) else Some(root))
      && Ids(t2) == Ids(t0) && InOrder(t2) == InOrder(t0) && SameData(a0, d)
      && RRFree(t2, true, None, d) && Balanced(t2, d)
  {
    FixSite(t, a, c);
    PaintTwo(a, g, p, Red, Black);
    LineLeftStep(t, a, c, p, g, d);
  }

  /** The line case with the parent on the right: the mirror image, with `rotate_left`. */
  lemma LineRightRound<V>(t: Shape, t0: Shape, root: nat, c: nat, a0: seq<Node<V>>, a: seq<Node<V>>, p: nat, g: nat, d: seq<Node<V>>)
    requires FixInvariant(t, t0, root, c, a0, a)
    requires c < |a| && a[c].parent == Some(p) && p < |a| && IsRed(a, p) && a[p].parent == Some(g) && g < |a|
    requires a[g].left != Some(p) && a[p].left != Some(c)
    requires !(a[g].left.Some? && IsRed(a, a[g].left.value))
    requires Linked(RotateLeftAt(t, g), None, d)
    requires SameColorsAll(Paint(Paint(a, g, Red), p, Black), d) && SameData(Paint(Paint(a, g, Red), p, Black), d)
    ensures var t2 := RotateLeftAt(t, g);
      && Linked(t2, None, d) && Distinct(t2) && Root(t2) == (if a[g].parent.None? then Some(p) else Some(root))
      && Ids(t2) == Ids(t0) && InOrder(t2) == InOrder(t0) && SameData(a0, d)
      && RRFree(t2, true, None, d) && Balanced(t2, d)
  {
    FixSite(t, a, c);
    PaintTwo(a, g, p, Red, Black);
    LineRightStep(t, a, c, p, g, d);
  }

  /** The end of `fix`: painting the root black leaves no violation. */
  lemma BlackenRound<V>(t: Shape, t0: Shape, root: nat, c: nat, a0: seq<Node<V>>, a: seq<Node<V>>)
    requires FixInvariant(t, t0, root, c, a0, a) && RRFree(t, true, Some(root), a) && root < |a|
    ensures var b := Paint(a, root, Black);
      && Linked(t, None, b) && SameData(a0, b) && RRFree(t, true, None, b) && Balanced(t, b)
  {
    PaintLinked(t, None, a, root, Black);
    BlackenRoot(t, true, Some(root), a, Paint(a, root, Black));
  }

  // ---------------------------------------------------------------------------------------
  // The tree
  // ---------------------------------------------------------------------------------------

  /** What `add_rec` reports: the new cell (the source's `Ok`) or the value it replaced (`Err`). */
  datatype AddOutcome<V> = Attached(cell: nat) | Swapped(previous: V)

  /**
   * The cells after the link updates of a rotation at `n` whose child `y` (on side `right`
   * when `toLeft`) moves up: `y` takes `n`'s place under `n`'s parent, `y`'s inner subtree `z`
   * moves over to `n`, and `n` hangs below `y`.
   */
  ghost function Relinked<V>(a: seq<Node<V>>, n: nat, y: nat, toLeft: bool): seq<Node<V>>
    requires n < |a| && y < |a|
    requires var q := a[n].parent; var z := if toLeft then a[y].left else a[y].right;
      && (q.Some? ==> q.value < |a|) && (z.Some? ==> z.value < |a|)
  {
    var q := a[n].parent;
    var a1 := if q.None? then a
      else if a[q.value].left == Some(n) then a[q.value := a[q.value].(left := Some(y))]
      else a[q.value := a[q.value].(right := Some(y))];
    var a2 := a1[y := a1[y].(parent := q)];
    var z := if toLeft then a2[y].left else a2[y].right;
    var a3 := if toLeft then a2[n := a2[n].(right := z)] else a2[n := a2[n].(left := z)];
    var a4 := if z.Some? then a3[z.value := a3[z.value].(parent := Some(n))] else a3;
    var a5 := if toLeft then a4[y := a4[y].(left := Some(n))] else a4[y := a4[y].(right := Some(n))];
    a5[n := a5[n].(parent := Some(y))]
  }

  /** The left relinking is the rotation `RotatedLeft` describes. */
  lemma RelinkedLeft<V>(a: seq<Node<V>>, n: nat, y: nat)
    requires n < |a| && a[n].right == Some(y) && y < |a| && y != n
    requires var z := a[y].left; var q := a[n].parent;
      && (z.Some? ==> z.value < |a| && z.value != n && z.value != y)
      && (q.Some? ==> q.value < |a| && q.value != n && q.value != y && q != z)
    ensures RotatedLeft(a, Relinked(a, n, y, true), n)
  {
  }

  /** The right relinking is the rotation `RotatedRight` describes. */
  lemma RelinkedRight<V>(a: seq<Node<V>>, n: nat, y: nat)
    requires n < |a| && a[n].left == Some(y) && y < |a| && y != n
    requires var z := a[y].right; var q := a[n].parent;
      && (z.Some? ==> z.value < |a| && z.value != n && z.value != y)
      && (q.Some? ==> q.value < |a| && q.value != n && q.value != y && q != z)
    ensures RotatedRight(a, Relinked(a, n, y, false), n)
  {
  }

  class RedBlackTree<V> {
    var nodes: seq<Node<V>>
    var root: Option<nat>
    var length: nat
    ghost var shape: Shape

    /** The links form the tree `shape`, whose keys are in order and whose colours are valid. */
    ghost predicate Valid()
      reads this
    {
      && Linked(shape, None, nodes) && Distinct(shape) && root == Root(shape)
      && length == |InOrder(shape)|
      && Sorted(Contents(shape, nodes))
      && RRFree(shape, true, None, nodes) && Balanced(shape, nodes)
    }

    /** The pairs of the tree in key order. */
    ghost function Pairs(): seq<Pair<V>>
      reads this
    {
      Contents(shape, nodes)
    }

    /** The empty tree (the derived `Default`). */
    constructor ()
      ensures Valid() && Pairs() == [] && length == 0
    {
      nodes := [];
      root := None;
      length := 0;
      shape := Nil;
    }

    /** `length`: the number of pairs in the tree. */
    function Length(): (n: nat)
      reads this
      requires Valid()
      ensures n == |Pairs()|
    {
      ContentsLength(shape, None, nodes);
      length
    }

    /** `is_valid`, with the corrected `validate`. */
    function IsValid(): (b: bool)
      reads this
      requires Linked(shape, None, nodes) && root == Root(shape)
      ensures b <==> RRFree(shape, true, None, nodes) && Balanced(shape, nodes)
    {
      ValidateAccepts(root, nodes, shape);
      Validate(root, Red, nodes, shape, None).IsValid()
    }

    /**
     * Whether `child` is the left child of `parent` (the source compares addresses): in the
     * tree the links describe, `child` is the root of `parent`'s left subtree.
     */
    function IsLeft(child: nat, parent: nat): (b: bool)
      reads this
      requires parent < |nodes|
      ensures b <==> nodes[parent].left == Some(child)
      ensures Linked(shape, None, nodes) && parent in Ids(shape) ==>
        && SubtreeAt(shape, parent).Fork?
        && (b <==> Root(SubtreeAt(shape, parent).left) == Some(child))
    {
      LeftOfSubtree(shape, None, nodes, parent);
      match nodes[parent].left
      case Some(left) => left == child
      case None => false
    }

    /**
     * `replace_child`: `newChild` takes the slot of `child` below `parent` (the right slot
     * unless `child` is the left child) and gets `parent` as its own parent.
     */
    method ReplaceChild(parent: Option<nat>, child: nat, newChild: nat)
      requires newChild < |nodes| && (parent.Some? ==> parent.value < |nodes|)
      modifies this`nodes
      ensures parent.None? ==> nodes == old(nodes)[newChild := old(nodes)[newChild].(parent := None)]
      ensures parent.Some? ==>
        var q := parent.value;
        var relinked := old(nodes)[q := if old(nodes)[q].left == Some(child) then old(nodes)[q].(left := Some(newChild))
                                        else old(nodes)[q].(right := Some(newChild))];
        nodes == relinked[newChild := relinked[newChild].(parent := parent)]
    {
      if parent.Some? {
        var q := parent.value;
        if IsLeft(child, q) {
          nodes := nodes[q := nodes[q].(left := Some(newChild))];
        } else {
          nodes := nodes[q := nodes[q].(right := Some(newChild))];
        }
      }
      nodes := nodes[newChild := nodes[newChild].(parent := parent)];
    }

    /**
     * The link updates of `rotate_left` at `n`, whose right child `y` moves up: `y` takes `n`'s
     * place under its parent, `y`'s left subtree becomes `n`'s right one, and `n` hangs left of `y`.
     */
    method RelinkLeft(n: nat, y: nat)
      requires n < |nodes| && nodes[n].right == Some(y) && y < |nodes| && y != n
      requires var z := nodes[y].left; var q := nodes[n].parent;
        && (z.Some? ==> z.value < |nodes| && z.value != n && z.value != y)
        && (q.Some? ==> q.value < |nodes| && q.value != n && q.value != y && q != z)
      modifies this`nodes
      ensures RotatedLeft(old(nodes), nodes, n)
    {
      ghost var a := nodes;
      ReplaceChild(nodes[n].parent, n, y);
      var z := nodes[y].left;
      nodes := nodes[n := nodes[n].(right := z)];
      if z.Some? {
        nodes := nodes[z.value := nodes[z.value].(parent := Some(n))];
      }
      nodes := nodes[y := nodes[y].(left := Some(n))];
      nodes := nodes[n := nodes[n].(parent := Some(y))];
      assert nodes == Relinked(a, n, y, true);
      RelinkedLeft(a, n, y);
    }

    /**
     * `rotate_left` at `n`: its right child takes its place and it becomes that child's left
     * child. Without a right child nothing changes and `n` is returned.
     */
    method RotateLeft(n: nat, ghost t: Shape) returns (top: nat)
      requires n < |nodes| && Linked(t, None, nodes) && Distinct(t) && n in Ids(t)
      modifies this`nodes
      ensures old(nodes[n].right).None? ==> top == n && nodes == old(nodes)
      ensures old(nodes[n].right).Some? ==>
        && top == old(nodes[n].right.value) && top < old(|nodes|)
        && RotatedLeft(old(nodes), nodes, n)
        && Linked(RotateLeftAt(t, n), None, nodes)
      ensures SameColorsAll(old(nodes), nodes) && SameData(old(nodes), nodes)
    {
      var right := nodes[n].right;
      if right.None? {
        return n;
      }
      var y := right.value;
      ghost var a := nodes;
      RotateLeftCells(t, nodes, n);
      RelinkLeft(n, y);
      RotatedLeftLinked(t, a, nodes, n);
      RotatedKeeps(a, nodes, n);
      top := y;
    }

    /**
     * The link updates of `rotate_right` at `n`, whose left child `y` moves up: `y` takes `n`'s
     * place under its parent, `y`'s right subtree becomes `n`'s left one, and `n` hangs right of `y`.
     */
    method RelinkRight(n: nat, y: nat)
      requires n < |nodes| && nodes[n].left == Some(y) && y < |nodes| && y != n
      requires var z := nodes[y].right; var q := nodes[n].parent;
        && (z.Some? ==> z.value < |nodes| && z.value != n && z.value != y)
        && (q.Some? ==> q.value < |nodes| && q.value != n && q.value != y && q != z)
      modifies this`nodes
      ensures RotatedRight(old(nodes), nodes, n)
    {
      ghost var a := nodes;
      ReplaceChild(nodes[n].parent, n, y);
      var z := nodes[y].right;
      nodes := nodes[n := nodes[n].(left := z)];
      if z.Some? {
        nodes := nodes[z.value := nodes[z.value].(parent := Some(n))];
      }
      nodes := nodes[y := nodes[y].(right := Some(n))];
      nodes := nodes[n := nodes[n].(parent := Some(y))];
      assert nodes == Relinked(a, n, y, false);
      RelinkedRight(a, n, y);
    }

    /** `rotate_right` at `n`: the mirror image of `RotateLeft`. */
    method RotateRight(n: nat, ghost t: Shape) returns (top: nat)
      requires n < |nodes| && Linked(t, None, nodes) && Distinct(t) && n in Ids(t)
      modifies this`nodes
      ensures old(nodes[n].left).None? ==> top == n && nodes == old(nodes)
      ensures old(nodes[n].left).Some? ==>
        && top == old(nodes[n].left.value) && top < old(|nodes|)
        && RotatedRight(old(nodes), nodes, n)
        && Linked(RotateRightAt(t, n), None, nodes)
      ensures SameColorsAll(old(nodes), nodes) && SameData(old(nodes), nodes)
    {
      var left := nodes[n].left;
      if left.None? {
        return n;
      }
      var y := left.value;
      ghost var a := nodes;
      RotateRightCells(t, nodes, n);
      RelinkRight(n, y);
      RotatedRightLinked(t, a, nodes, n);
      RotatedKeeps(a, nodes, n);
      top := y;
    }

    /**
     * `add_rec`: descends by key from `tree`, whose parent is `parent`, and either replaces
     * the value under an equal key or attaches a new red leaf, returning the root of the
     * subtree. The subtree `s` then holds `(key, value)` in order; a new leaf is the only
     * possible violation of the colour rule, and every black height stays.
     */
    method AddRec(tree: Option<nat>, parent: Option<nat>, key: int, value: V, ghost s: Shape, ghost pr: bool)
      returns (subRoot: nat, outcome: AddOutcome<V>, ghost s2: Shape)
      requires Linked(s, parent, nodes) && Distinct(s) && Root(s) == tree
      requires Sorted(Contents(s, nodes))
      modifies this`nodes
      decreases s
      ensures Linked(s2, parent, nodes) && Distinct(s2) && Root(s2) == Some(subRoot)
      ensures tree.Some? ==> subRoot == tree.value
      ensures Contents(s2, nodes) == InsertSorted(old(Contents(s, nodes)), (key, value))
      ensures outcome.Swapped? <==> Get(old(Contents(s, nodes)), key).Some?
      ensures outcome.Swapped? ==> Get(old(Contents(s, nodes)), key) == Some(outcome.previous)
      ensures |nodes| == old(|nodes|) + (if outcome.Attached? then 1 else 0)
      ensures outcome.Swapped? ==> s2 == s && forall k :: 0 <= k < |nodes| ==> SameLinks(nodes[k], old(nodes[k]))
      ensures outcome.Attached? ==>
        && outcome.cell == old(|nodes|) && Ids(s2) == Ids(s) + {outcome.cell}
        && nodes[outcome.cell] == Node(key, value, Red, nodes[outcome.cell].parent, None, None)
      ensures forall k :: 0 <= k < old(|nodes|) ==>
        && nodes[k].color == old(nodes[k].color) && nodes[k].key == old(nodes[k].key)
        && (k !in Ids(s) ==> nodes[k] == old(nodes[k]))
      ensures RRFree(s, pr, None, old(nodes)) ==>
        RRFree(s2, pr, if outcome.Attached? then Some(outcome.cell) else None, nodes)
      ensures Balanced(s, old(nodes)) ==> Balanced(s2, nodes) && BH(s2, nodes) == BH(s, old(nodes))
    {
      match tree
      case None =>
        subRoot := |nodes|;
        nodes := nodes + [Node(key, value, Red, parent, None, None)];
        outcome := Attached(subRoot);
        s2 := Fork(subRoot, Nil, Nil);
        ContentsFork(subRoot, Nil, Nil, nodes);
      case Some(i) =>
        ghost var a := nodes;
        ghost var l, r := s.left, s.right;
        ContentsFork(i, l, r, a);
        ghost var here := (a[i].key, a[i].value);
        SortedSplit(Contents(l, a), here, Contents(r, a));
        LinkedBounds(s, parent, a);
        if key < nodes[i].key {
          var leftRoot, out, l2 := AddRec(nodes[i].left, Some(i), key, value, l, IsRed(nodes, i));
          ghost var m := nodes;
          nodes := nodes[i := nodes[i].(left := Some(leftRoot))];
          subRoot, outcome, s2 := i, out, Fork(i, l2, r);
          GraftLeft(i, parent, l, l2, r, leftRoot, out, (key, value), a, m, nodes, pr);
        } else if key == nodes[i].key {
          var previous := nodes[i].value;
          nodes := nodes[i := nodes[i].(value := value)];
          subRoot, outcome, s2 := i, Swapped(previous), s;
          SwapHere(i, parent, l, r, (key, value), a, nodes, pr);
        } else {
          var rightRoot, out, r2 := AddRec(nodes[i].right, Some(i), key, value, r, IsRed(nodes, i));
          ghost var m := nodes;
          nodes := nodes[i := nodes[i].(right := Some(rightRoot))];
          subRoot, outcome, s2 := i, out, Fork(i, l, r2);
          GraftRight(i, parent, l, r, r2, rightRoot, out, (key, value), a, m, nodes, pr);
        }
    }


    /**
     * The rotation cases of `fix`, reached when `cur` and its parent `p` are red and the
     * uncle is black or missing. In the triangle cases (`cur` and `p` on opposite sides) one
     * rotation at `p` straightens the path and the loop goes on at `p`; in the line cases the
     * grandparent `g` turns red, `p` black, a rotation at `g` lifts `p`, and the tree is a
     * valid red-black tree again (`finished`), rooted at `p` when `g` was the root.
     */
    method FixRotate(root: nat, cur: nat, p: nat, g: nat, parentIsLeft: bool, ghost t0: Shape, ghost t: Shape, ghost a0: seq<Node<V>>)
      returns (finished: bool, newRoot: nat, next: nat, ghost t2: Shape)
      requires FixInvariant(t, t0, root, cur, a0, nodes)
      requires cur < |nodes| && nodes[cur].parent == Some(p) && p < |nodes| && IsRed(nodes, p)
      requires nodes[p].parent == Some(g) && g < |nodes| && parentIsLeft == (nodes[g].left == Some(p))
      requires !(var uncle := if parentIsLeft then nodes[g].right else nodes[g].left;
                 uncle.Some? && IsRed(nodes, uncle.value))
      modifies this`nodes
      ensures finished ==>
        && Linked(t2, None, nodes) && Distinct(t2) && Root(t2) == Some(newRoot)
        && Ids(t2) == Ids(t0) && InOrder(t2) == InOrder(t0) && SameData(a0, nodes)
        && RRFree(t2, true, None, nodes) && Balanced(t2, nodes)
      ensures !finished ==>
        && FixInvariant(t2, t0, root, next, a0, nodes)
        && RedCount(nodes) == RedCount(old(nodes)) && Bent(nodes, next) < Bent(old(nodes), cur)
    {
      FixSite(t, nodes, cur);
      var selfIsLeft := IsLeft(cur, p);
      ghost var a := nodes;
      if parentIsLeft {
        if selfIsLeft {
          nodes := Paint(nodes, g, Red);
          PaintLinked(t, None, a, g, Red);
          nodes := Paint(nodes, p, Black);
          PaintLinked(t, None, Paint(a, g, Red), p, Black);
          var top := RotateRight(g, t);
          LineLeftRound(t, t0, root, cur, a0, a, p, g, nodes);
          t2 := RotateRightAt(t, g);
          finished, newRoot, next := true, if nodes[top].parent.None? then top else root, g;
        } else {
          var _ := RotateLeft(p, t);
          TriangleLeftRound(t, t0, root, cur, a0, a, p, g, nodes);
          t2 := RotateLeftAt(t, p);
          finished, newRoot, next := false, root, p;
        }
      } else {
        if selfIsLeft {
          var _ := RotateRight(p, t);
          TriangleRightRound(t, t0, root, cur, a0, a, p, g, nodes);
          t2 := RotateRightAt(t, p);
          finished, newRoot, next := false, root, p;
        } else {
          nodes := Paint(nodes, g, Red);
          PaintLinked(t, None, a, g, Red);
          nodes := Paint(nodes, p, Black);
          PaintLinked(t, None, Paint(a, g, Red), p, Black);
          var top := RotateLeft(g, t);
          LineRightRound(t, t0, root, cur, a0, a, p, g, nodes);
          t2 := RotateLeftAt(t, g);
          finished, newRoot, next := true, if nodes[top].parent.None? then top else root, g;
        }
      }
    }

    /**
     * `fix`: repairs the colours after a red leaf `start` was attached below the tree rooted
     * at `root`, moving up two levels per recolouring and finishing with at most two rotations,
     * then paints the root black. The tree keeps its cells, order, keys and values, and
     * satisfies both red-black conditions again; the result is its root.
     */
    method Fix(root: nat, start: nat, ghost t0: Shape) returns (newRoot: nat, ghost t: Shape)
      requires Linked(t0, None, nodes) && Distinct(t0) && Root(t0) == Some(root)
      requires start in Ids(t0) && IsRed(nodes, start)
      requires RRFree(t0, true, Some(start), nodes) && Balanced(t0, nodes)
      modifies this`nodes
      ensures Linked(t, None, nodes) && Distinct(t) && Root(t) == Some(newRoot)
      ensures Ids(t) == Ids(t0) && InOrder(t) == InOrder(t0) && SameData(old(nodes), nodes)
      ensures RRFree(t, true, None, nodes) && Balanced(t, nodes)
    {
      var cur := start;
      t := t0;
      while true
        invariant FixInvariant(t, t0, root, cur, old(nodes), nodes)
        decreases RedCount(nodes), Bent(nodes, cur)
      {
        FixSite(t, nodes, cur);
        var parent := nodes[cur].parent;
        if parent.None? {
          break;
        }
        var p := parent.value;
        if nodes[p].color == Black {
          break;
        }
        var grandParent := nodes[p].parent;
        if grandParent.None? {
          // Cannot happen: a red parent is never the root, since only `cur` may be red below red.
          break;
        }
        var g := grandParent.value;
        var parentIsLeft := IsLeft(p, g);
        var uncle := if parentIsLeft then nodes[g].right else nodes[g].left;
        if uncle.Some? && nodes[uncle.value].color == Red {
          var u := uncle.value;
          ghost var a := nodes;
          nodes := Paint(nodes, u, Black);
          nodes := Paint(nodes, p, Black);
          nodes := Paint(nodes, g, Red);
          UncleRound(t, t0, root, cur, old(nodes), a, p, g, u);
          cur := g;
          continue;
        }
        var finished, top, next;
        finished, top, next, t := FixRotate(root, cur, p, g, parentIsLeft, t0, t, old(nodes));
        if finished {
          newRoot := top;
          return;
        }
        cur := next;
      }
      ghost var a := nodes;
      BlackenRound(t, t0, root, cur, old(nodes), a);
      nodes := Paint(nodes, root, Black);
      newRoot := root;
    }

    /**
     * `add`: inserts `key` with `value`, or replaces the value of an equal key and returns
     * the old one. The tree then maps `key` to `value` and keeps everything else, stays
     * sorted and satisfies both red-black conditions; a replacement changes no link and no
     * colour.
     */
    method Add(key: int, value: V) returns (previous: Option<V>)
      requires Valid()
      modifies this
      ensures Valid()
      ensures Pairs() == InsertSorted(old(Pairs()), (key, value))
      ensures previous == Get(old(Pairs()), key)
      ensures length == old(length) + (if previous.None? then 1 else 0)
      ensures previous.Some? ==>
        && shape == old(shape) && root == old(root) && |nodes| == old(|nodes|)
        && forall k :: 0 <= k < |nodes| ==> SameLinks(nodes[k], old(nodes[k])) && nodes[k].color == old(nodes[k].color)
    {
      ghost var before := Pairs();
      InsertSortedKeeps(before, (key, value));
      ContentsLength(shape, None, nodes);
      var subRoot, outcome, s2 := AddRec(root, None, key, value, shape, true);
      ContentsLength(s2, None, nodes);
      match outcome
      case Attached(cell) =>
        length := length + 1;
        ghost var m := nodes;
        var newRoot, t := Fix(subRoot, cell, s2);
        root := Some(newRoot);
        shape := t;
        LinkedBounds(t, None, nodes);
        ContentsFrame(t, m, nodes);
        previous := None;
      case Swapped(oldValue) =>
        root := Some(subRoot);
        shape := s2;
        LinkedBounds(s2, None, nodes);
        ColorFrame(s2, true, None, None, old(nodes), nodes);
        previous := Some(oldValue);
    }


    /** `left_most`: follows left links down from `n` to the first cell of its subtree in order. */
    method LeftMost(n: nat) returns (m: nat)
      requires Valid() && n in Ids(shape)
      ensures var order := InOrder(SubtreeAt(shape, n)); |order| > 0 && m == order[0]
    {
      Around(shape, nodes, n);
      m := n;
      while nodes[m].left.Some?
        invariant m in Ids(shape) && m < |nodes|
        invariant First(SubtreeAt(shape, m)) == First(SubtreeAt(shape, n))
        decreases |InOrder(SubtreeAt(shape, m))|
      {
        Around(shape, nodes, m);
        m := nodes[m].left.value;
        Around(shape, nodes, m);
      }
      Around(shape, nodes, m);
      FirstInOrder(SubtreeAt(shape, n));
    }

    /**
     * `first_right_parent`: climbs from `n` until it leaves a left child; that parent is the
     * first cell after the whole subtree of `n` in order, and there is none when `n` lies on
     * the right spine of the tree.
     */
    method FirstRightParent(n: nat) returns (r: Option<nat>)
      requires Valid() && n in Ids(shape)
      ensures r == (if Post(shape, n) == [] then None else Some(Post(shape, n)[0]))
    {
      var m := n;
      Around(shape, nodes, m);
      while true
        invariant m in Ids(shape) && Post(shape, m) == Post(shape, n)
        invariant |InOrder(SubtreeAt(shape, m))| <= |InOrder(shape)|
        decreases |InOrder(shape)| - |InOrder(SubtreeAt(shape, m))|
      {
        Around(shape, nodes, m);
        var parent := nodes[m].parent;
        if parent.None? {
          OrphanIsRoot(shape, nodes, m);
          return None;
        }
        var q := parent.value;
        ChildOfParent(shape, nodes, m, q);
        PostChild(shape, q);
        Around(shape, nodes, q);
        if IsLeft(m, q) {
          return Some(q);
        }
        m := q;
      }
    }

    /**
     * `next`: the cell after `c` in order (at position `j`) is the left-most cell of its right
     * subtree, or else its first right parent; there is none after the last cell.
     */
    method Next(c: nat, ghost j: nat) returns (r: Option<nat>)
      requires Valid() && j < |InOrder(shape)| && InOrder(shape)[j] == c
      ensures r == (if j + 1 < |InOrder(shape)| then Some(InOrder(shape)[j + 1]) else None)
    {
      NextPosition(shape, c, j);
      Around(shape, nodes, c);
      var right := nodes[c].right;
      if right.None? {
        r := FirstRightParent(c);
      } else {
        var m := LeftMost(right.value);
        r := Some(m);
      }
    }

    /** `iter`: an iterator positioned on the first cell in order. */
    method Iterate() returns (it: Iter<V>)
      requires Valid()
      ensures fresh(it) && it.Valid() && it.tree == this && it.index == 0
    {
      var first := None;
      if root.Some? {
        var m := LeftMost(root.value);
        first := Some(m);
      }
      it := new Iter(this, first);
    }
  }

  /**
   * The source's `Iter`: the cell it will yield next, and (as ghost state) how many cells it
   * has yielded, which is that cell's position in order.
   */
  class Iter<V> {
    const tree: RedBlackTree<V>
    var cur: Option<nat>
    ghost var index: nat

    ghost predicate Valid()
      reads this, tree
    {
      && tree.Valid()
      && index <= |InOrder(tree.shape)|
      && cur == (if index < |InOrder(tree.shape)| then Some(InOrder(tree.shape)[index]) else None)
    }

    constructor (tree: RedBlackTree<V>, first: Option<nat>)
      requires tree.Valid()
      requires first == (if InOrder(tree.shape) == [] then None else Some(InOrder(tree.shape)[0]))
      ensures Valid() && this.tree == tree && index == 0
    {
      this.tree := tree;
      cur := first;
      index := 0;
    }

    /**
     * `Iterator::next`: yields the cells in order, so that the `index`-th call yields the
     * `index`-th pair of the tree in key order, and `None` once all have been yielded.
     */
    method Next() returns (item: Option<nat>)
      requires Valid()
      modifies this`cur, this`index
      ensures Valid()
      ensures old(index) < |tree.Pairs()| ==>
        && item.Some? && item.value < |tree.nodes| && index == old(index) + 1
        && (tree.nodes[item.value].key, tree.nodes[item.value].value) == tree.Pairs()[old(index)]
      ensures old(index) >= |tree.Pairs()| ==> item.None? && index == old(index)
    {
      ContentsAt(tree.shape, tree.nodes);
      match cur
      case None =>
        item := None;
      case Some(c) =>
        cur := tree.Next(c, index);
        index := index + 1;
        item := Some(c);
    }
  }
}
