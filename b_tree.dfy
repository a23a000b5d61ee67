/**
 * The B-tree of tree/src/b_tree.rs. A node owns its pairs and its children outright (the
 * source's `Box`es are never shared), so a node is a value here and an update through
 * `&mut` is a function from the old node to the new one; the `BTree` object itself, whose
 * `root` and `length` fields the source reassigns, is a class.
 *
 * The meaning of a node is `Flat(node)`, its pairs in order (child 0, pair 0, child 1, ...).
 * Insertion and removal are proved against `InsertSorted`, `Get` and `Delete`, the same
 * operations on a sorted list of pairs.
 */
module BTree {
  import opened Wrappers
  import opened SortedPairs

  datatype Node<V> = Node(pairs: seq<Pair<V>>, children: seq<Node<V>>)

  /** What a node that overflowed hands to its parent: the middle pair and the new right node. */
  datatype SplitInfo<V> = SplitInfo(midPair: Pair<V>, rightChild: Node<V>)

  // ---------------------------------------------------------------------------------------
  // The in-order pairs of a node
  // ---------------------------------------------------------------------------------------

  /** The pairs of `n` in order: child 0, pair 0, child 1, pair 1, ... */
  ghost function Flat<V>(n: Node<V>): seq<Pair<V>>
    decreases n, 1
  {
    Weave(n.children, n.pairs)
  }

  /** Children `cs` and pairs `ps` interleaved, starting with a child; a leaf is its pairs. */
  ghost function Weave<V>(cs: seq<Node<V>>, ps: seq<Pair<V>>): seq<Pair<V>>
    decreases cs, 0
  {
    if cs == [] then ps
    else if ps == [] then Flat(cs[0]) + Weave(cs[1..], [])
    else Flat(cs[0]) + [ps[0]] + Weave(cs[1..], ps[1..])
  }

  /** What follows the first child in `Weave`. */
  ghost function Tail<V>(cs: seq<Node<V>>, ps: seq<Pair<V>>): seq<Pair<V>>
  {
    if ps == [] then Weave(cs, []) else [ps[0]] + Weave(cs, ps[1..])
  }

  lemma {:induction false} WeaveCons<V>(c: Node<V>, cs: seq<Node<V>>, ps: seq<Pair<V>>)
    ensures Weave([c] + cs, ps) == Flat(c) + Tail(cs, ps)
  {
    assert ([c] + cs)[1..] == cs;
  }

  /** Equal numbers of children and pairs weave separately from what follows them. */
  lemma {:induction false} WeaveConcat<V>(cs1: seq<Node<V>>, ps1: seq<Pair<V>>, cs2: seq<Node<V>>, ps2: seq<Pair<V>>)
    requires |cs1| == |ps1|
    ensures Weave(cs1 + cs2, ps1 + ps2) == Weave(cs1, ps1) + Weave(cs2, ps2)
    decreases |cs1|
  {
    if cs1 != [] {
      assert (cs1 + cs2)[0] == cs1[0] && (cs1 + cs2)[1..] == cs1[1..] + cs2;
      assert (ps1 + ps2)[0] == ps1[0] && (ps1 + ps2)[1..] == ps1[1..] + ps2;
      WeaveConcat(cs1[1..], ps1[1..], cs2, ps2);
    } else {
      assert cs1 + cs2 == cs2 && ps1 + ps2 == ps2;
    }
  }

  /** One pair more after as many pairs as children, less one, ends the weave. */
  lemma {:induction false} WeaveSnoc<V>(cs: seq<Node<V>>, ps: seq<Pair<V>>, p: Pair<V>)
    requires |cs| == |ps| + 1
    ensures Weave(cs, ps + [p]) == Weave(cs, ps) + [p]
    decreases |ps|
  {
    if ps == [] {
      assert cs[1..] == [];
    } else {
      assert (ps + [p])[0] == ps[0] && (ps + [p])[1..] == ps[1..] + [p];
      WeaveSnoc(cs[1..], ps[1..], p);
    }
  }

  /** A split node weaves back into one: left pairs, the middle pair, right pairs. */
  lemma {:induction false} WeaveJoin<V>(lc: seq<Node<V>>, lp: seq<Pair<V>>, mid: Pair<V>, rc: seq<Node<V>>, rp: seq<Pair<V>>)
    requires |lc| == |lp| + 1
    ensures Weave(lc + rc, lp + [mid] + rp) == Weave(lc, lp) + [mid] + Weave(rc, rp)
  {
    WeaveConcat(lc, lp + [mid], rc, rp);
    WeaveSnoc(lc, lp, mid);
  }

  /** The pairs of a well-formed node around its child `i`. */
  lemma {:induction false} WeaveAround<V>(cs: seq<Node<V>>, ps: seq<Pair<V>>, i: nat)
    requires |cs| == |ps| + 1 && i < |cs|
    ensures Weave(cs, ps) == Weave(cs[..i], ps[..i]) + Flat(cs[i]) + Tail(cs[i + 1..], ps[i..])
  {
    assert cs == cs[..i] + cs[i..] && ps == ps[..i] + ps[i..];
    WeaveConcat(cs[..i], ps[..i], cs[i..], ps[i..]);
    assert cs[i..] == [cs[i]] + cs[i + 1..];
    WeaveCons(cs[i], cs[i + 1..], ps[i..]);
  }

  /** The pairs of a well-formed node around its pair `i`. */
  lemma {:induction false} WeaveAroundPair<V>(cs: seq<Node<V>>, ps: seq<Pair<V>>, i: nat)
    requires |cs| == |ps| + 1 && i < |ps|
    ensures Weave(cs, ps) == Weave(cs[..i + 1], ps[..i]) + [ps[i]] + Weave(cs[i + 1..], ps[i + 1..])
  {
    assert cs == cs[..i + 1] + cs[i + 1..] && ps == ps[..i] + [ps[i]] + ps[i + 1..];
    WeaveJoin(cs[..i + 1], ps[..i], ps[i], cs[i + 1..], ps[i + 1..]);
  }

  /** Before child `i` the weave ends with pair `i - 1`; after it, it starts with pair `i`. */
  lemma {:induction false} WeaveEnds<V>(cs: seq<Node<V>>, ps: seq<Pair<V>>, i: nat)
    requires |cs| == |ps| + 1 && i < |cs|
    ensures i > 0 ==> |Weave(cs[..i], ps[..i])| > 0 && Weave(cs[..i], ps[..i])[|Weave(cs[..i], ps[..i])| - 1] == ps[i - 1]
    ensures i < |ps| ==> |Tail(cs[i + 1..], ps[i..])| > 0 && Tail(cs[i + 1..], ps[i..])[0] == ps[i]
    ensures i == |ps| ==> Tail(cs[i + 1..], ps[i..]) == []
  {
    if i > 0 {
      assert ps[..i] == ps[..i - 1] + [ps[i - 1]];
      WeaveSnoc(cs[..i], ps[..i - 1], ps[i - 1]);
    }
    if i == |ps| {
      assert cs[i + 1..] == [] && ps[i..] == [];
    }
  }

  /** In sorted pairs, a part ending below `key` lies wholly below it. */
  lemma {:induction false} SortedBelow<V>(a: seq<Pair<V>>, x: seq<Pair<V>>, r: seq<Pair<V>>, key: int)
    requires Sorted(a + x + r) && (a != [] ==> a[|a| - 1].0 < key)
    ensures Below(a, key)
  {
    forall i | 0 <= i < |a|
      ensures a[i].0 < key
    {
      assert (a + x + r)[i] == a[i] && (a + x + r)[|a| - 1] == a[|a| - 1];
    }
  }

  /** In sorted pairs, a part starting above `key` lies wholly above it. */
  lemma {:induction false} SortedAbove<V>(a: seq<Pair<V>>, x: seq<Pair<V>>, r: seq<Pair<V>>, key: int)
    requires Sorted(a + x + r) && (r != [] ==> r[0].0 > key)
    ensures Above(r, key)
  {
    forall i | 0 <= i < |r|
      ensures r[i].0 > key
    {
      assert (a + x + r)[|a| + |x| + i] == r[i] && (a + x + r)[|a| + |x|] == r[0];
    }
  }

  /** A part of sorted pairs is sorted. */
  lemma {:induction false} SortedPart<V>(a: seq<Pair<V>>, x: seq<Pair<V>>, r: seq<Pair<V>>)
    requires Sorted(a + x + r)
    ensures Sorted(x)
  {
    forall i, j | 0 <= i < j < |x|
      ensures x[i].0 < x[j].0
    {
      assert (a + x + r)[|a| + i] == x[i] && (a + x + r)[|a| + j] == x[j];
    }
  }

  // ---------------------------------------------------------------------------------------
  // Shape
  // ---------------------------------------------------------------------------------------

  /** Every internal node has one child more than it has pairs. */
  ghost predicate Wellformed<V>(n: Node<V>)
    decreases n
  {
    n.children == [] || (|n.children| == |n.pairs| + 1 && forall i :: 0 <= i < |n.children| ==> Wellformed(n.children[i]))
  }

  /** Every leaf under `n` is `h` levels down. */
  ghost predicate Levelled<V>(n: Node<V>, h: nat)
    decreases n
  {
    if n.children == [] then h == 0
    else h > 0 && forall i :: 0 <= i < |n.children| ==> Levelled(n.children[i], h - 1)
  }

  // ---------------------------------------------------------------------------------------
  // Node operations
  // ---------------------------------------------------------------------------------------

  /** `Vec::insert`: `x` at index `i`, the rest moved up. */
  function Insert<T>(s: seq<T>, i: nat, x: T): (r: seq<T>)
    requires i <= |s|
    ensures |r| == |s| + 1 && r[i] == x
    ensures forall j :: 0 <= j < i ==> r[j] == s[j]
    ensures forall j :: i < j < |r| ==> r[j] == s[j - 1]
  {
    s[..i] + [x] + s[i..]
  }

  /** An insertion into a prefix, with the rest of the sequence after it. */
  lemma InsertHead<T>(s: seq<T>, k: nat, i: nat, x: T)
    requires i <= k <= |s|
    ensures Insert(s[..k], i, x) + s[k..] == Insert(s, i, x)
  {
    assert s[..k][..i] == s[..i] && s[..k][i..] + s[k..] == s[i..];
  }

  /** An insertion into a suffix, with the start of the sequence before it. */
  lemma InsertTail<T>(s: seq<T>, k: nat, i: nat, x: T)
    requires k <= i <= |s|
    ensures s[..k] + Insert(s[k..], i - k, x) == Insert(s, i, x)
  {
    assert s[k..][..i - k] == s[k..i] && s[k..][i - k..] == s[i..] && s[..k] + s[k..i] == s[..i];
  }

  /** `Node::new_with_data`: a node of the given pairs, and of no children when none are given. */
  function NewWithData<V>(pairs: seq<Pair<V>>, children: Option<seq<Node<V>>>): (r: Node<V>)
    ensures r.pairs == pairs
    ensures children.None? ==> Flat(r) == pairs && Levelled(r, 0)
    ensures children.Some? ==> r.children == children.value
  {
    Node(pairs, match children case None => [] case Some(cs) => cs)
  }

  /** `Node::new_root`: one pair between two children, so the tree grows by one level. */
  function NewRoot<V>(pair: Pair<V>, left: Node<V>, right: Node<V>): (r: Node<V>)
    ensures Flat(r) == Flat(left) + [pair] + Flat(right)
    ensures forall h: nat :: Levelled(left, h) && Levelled(right, h) ==> Levelled(r, h + 1)
    ensures Wellformed(left) && Wellformed(right) ==> Wellformed(r)
  {
    var r := Node([pair], [left, right]);
    assert [left, right][1..] == [right] && [right][1..] == [] && [pair][1..] == [];
    assert Weave([right], []) == Flat(right) + Weave([], []);
    assert Flat(r) == Flat(left) + [pair] + Weave([right], []);
    r
  }

  /**
   * What `add_pair` promises when it splits: the node keeps the first `(len + 1) / 2` pairs
   * of the insertion result, the middle pair goes up with a new right node holding the rest,
   * and the children (with `rightChild` inserted just after the new pair) are shared out so
   * that each internal node has one child more than it has pairs.
   */
  ghost predicate SplitsInto<V>(node: Node<V>, t: nat, pair: Pair<V>, rightChild: Option<Node<V>>,
    left: Node<V>, s: SplitInfo<V>)
  {
    && t <= |node.pairs|
    && left.pairs + [s.midPair] + s.rightChild.pairs == Insert(node.pairs, t, pair)
    && |left.pairs| == (|node.pairs| + 1) / 2
    && (rightChild.Some? ==>
         && |node.children| == |node.pairs| + 1
         && left.children + s.rightChild.children == Insert(node.children, t + 1, rightChild.value)
         && |left.children| == |left.pairs| + 1)
    && (rightChild.None? ==> left.children == node.children && s.rightChild.children == [])
  }

  /** The `Less` arm of `add_pair`'s split: the new pair lands in the left node. */
  function SplitBefore<V>(node: Node<V>, t: nat, pair: Pair<V>, rightChild: Option<Node<V>>): (r: (Node<V>, SplitInfo<V>))
    requires t < (|node.pairs| + 1) / 2
    requires rightChild.Some? ==> |node.children| == |node.pairs| + 1
    ensures SplitsInto(node, t, pair, rightChild, r.0, r.1)
  {
    var pairs, children, mid := node.pairs, node.children, (|node.pairs| + 1) / 2;
    var leftPairs := Insert(pairs[..mid - 1], t, pair);
    assert leftPairs + [pairs[mid - 1]] + pairs[mid..] == Insert(pairs, t, pair) by {
      InsertHead(pairs, mid - 1, t, pair);
      assert pairs[mid - 1..] == [pairs[mid - 1]] + pairs[mid..];
    }
    match rightChild
    case None =>
      (Node(leftPairs, children), SplitInfo(pairs[mid - 1], NewWithData(pairs[mid..], None)))
    case Some(rc) =>
      var leftChildren := Insert(children[..mid], t + 1, rc);
      InsertHead(children, mid, t + 1, rc);
      (Node(leftPairs, leftChildren), SplitInfo(pairs[mid - 1], NewWithData(pairs[mid..], Some(children[mid..]))))
  }

  /** The `Equal` arm of `add_pair`'s split: the new pair itself goes up. */
  function SplitAtMiddle<V>(node: Node<V>, t: nat, pair: Pair<V>, rightChild: Option<Node<V>>): (r: (Node<V>, SplitInfo<V>))
    requires t == (|node.pairs| + 1) / 2 <= |node.pairs|
    requires rightChild.Some? ==> |node.children| == |node.pairs| + 1
    ensures SplitsInto(node, t, pair, rightChild, r.0, r.1)
  {
    var pairs, children := node.pairs, node.children;
    assert pairs[..t] + [pair] + pairs[t..] == Insert(pairs, t, pair);
    match rightChild
    case None =>
      (Node(pairs[..t], children), SplitInfo(pair, NewWithData(pairs[t..], None)))
    case Some(rc) =>
      var rightChildren := [rc] + children[t + 1..];
      assert children[..t + 1] + rightChildren == Insert(children, t + 1, rc);
      (Node(pairs[..t], children[..t + 1]), SplitInfo(pair, NewWithData(pairs[t..], Some(rightChildren))))
  }

  /** The `Greater` arm of `add_pair`'s split: the new pair lands in the right node. */
  function SplitAfter<V>(node: Node<V>, t: nat, pair: Pair<V>, rightChild: Option<Node<V>>): (r: (Node<V>, SplitInfo<V>))
    requires (|node.pairs| + 1) / 2 < t <= |node.pairs|
    requires rightChild.Some? ==> |node.children| == |node.pairs| + 1
    ensures SplitsInto(node, t, pair, rightChild, r.0, r.1)
  {
    var pairs, children, mid := node.pairs, node.children, (|node.pairs| + 1) / 2;
    var rightPairs := Insert(pairs[mid + 1..], t - (mid + 1), pair);
    match rightChild
    case None =>
      SplitAfterLeaf(node, t, pair);
      (Node(pairs[..mid], children), SplitInfo(pairs[mid], NewWithData(rightPairs, None)))
    case Some(rc) =>
      var rightChildren := Insert(children[mid + 1..], t - mid, rc);
      SplitAfterInternal(node, t, pair, rc);
      (Node(pairs[..mid], children[..mid + 1]), SplitInfo(pairs[mid], NewWithData(rightPairs, Some(rightChildren))))
  }

  /** The pairs of a split after the middle: left half, middle pair, and the right half with `pair` inserted. */
  lemma SplitAfterPairs<V>(pairs: seq<Pair<V>>, mid: nat, t: nat, pair: Pair<V>)
    requires mid < t <= |pairs|
    ensures pairs[..mid] + [pairs[mid]] + Insert(pairs[mid + 1..], t - (mid + 1), pair) == Insert(pairs, t, pair)
  {
    InsertTail(pairs, mid + 1, t, pair);
    assert pairs[..mid + 1] == pairs[..mid] + [pairs[mid]];
  }

  lemma SplitAfterLeaf<V>(node: Node<V>, t: nat, pair: Pair<V>)
    requires (|node.pairs| + 1) / 2 < t <= |node.pairs|
    ensures var mid := (|node.pairs| + 1) / 2;
      SplitsInto(node, t, pair, None, Node(node.pairs[..mid], node.children),
        SplitInfo(node.pairs[mid], NewWithData(Insert(node.pairs[mid + 1..], t - (mid + 1), pair), None)))
  {
    SplitAfterPairs(node.pairs, (|node.pairs| + 1) / 2, t, pair);
  }

  lemma SplitAfterInternal<V>(node: Node<V>, t: nat, pair: Pair<V>, rc: Node<V>)
    requires (|node.pairs| + 1) / 2 < t <= |node.pairs|
    requires |node.children| == |node.pairs| + 1
    ensures var mid := (|node.pairs| + 1) / 2;
      SplitsInto(node, t, pair, Some(rc), Node(node.pairs[..mid], node.children[..mid + 1]),
        SplitInfo(node.pairs[mid], NewWithData(Insert(node.pairs[mid + 1..], t - (mid + 1), pair),
          Some(Insert(node.children[mid + 1..], t - mid, rc)))))
  {
    var mid := (|node.pairs| + 1) / 2;
    SplitAfterPairs(node.pairs, mid, t, pair);
    InsertTail(node.children, mid + 1, t + 1, rc);
  }

  /**
   * `Node::add_pair`: inserts `pair` at `toInsert` and, in an internal node, `rightChild`
   * just after it. When the node would then hold `maxChildrenLength` pairs or more, it is
   * split instead, as `SplitsInto` says.
   */
  function AddPair<V>(node: Node<V>, maxChildrenLength: nat, toInsert: nat, pair: Pair<V>,
    rightChild: Option<Node<V>>): (r: (Node<V>, Option<SplitInfo<V>>))
    requires toInsert <= |node.pairs|
    requires rightChild.Some? ==> |node.children| == |node.pairs| + 1
    ensures r.1.None? <==> |node.pairs| + 1 < maxChildrenLength
    ensures r.1.None? ==> r.0.pairs == Insert(node.pairs, toInsert, pair)
    ensures r.1.None? && rightChild.None? ==> r.0.children == node.children
    ensures r.1.None? && rightChild.Some? ==> r.0.children == Insert(node.children, toInsert + 1, rightChild.value)
    ensures r.1.Some? ==> SplitsInto(node, toInsert, pair, rightChild, r.0, r.1.value)
  {
    if |node.pairs| + 1 >= maxChildrenLength then
      var mid := (|node.pairs| + 1) / 2;
      var (left, s) :=
        if toInsert < mid then SplitBefore(node, toInsert, pair, rightChild)
        else if toInsert == mid then SplitAtMiddle(node, toInsert, pair, rightChild)
        else SplitAfter(node, toInsert, pair, rightChild);
      (left, Some(s))
    else
      (Node(Insert(node.pairs, toInsert, pair),
            match rightChild case None => node.children case Some(rc) => Insert(node.children, toInsert + 1, rc)),
       None)
  }

  /** A split of a well-formed node weaves back into the node with the pair and child inserted. */
  lemma {:induction false} AddPairFlat<V>(node: Node<V>, m: nat, t: nat, pair: Pair<V>, rc: Node<V>)
    requires t <= |node.pairs| && |node.children| == |node.pairs| + 1
    ensures var r := AddPair(node, m, t, pair, Some(rc));
      Combined(r.0, r.1) == Weave(Insert(node.children, t + 1, rc), Insert(node.pairs, t, pair))
  {
    var r := AddPair(node, m, t, pair, Some(rc));
    if r.1.Some? {
      var s := r.1.value;
      WeaveJoin(r.0.children, r.0.pairs, s.midPair, s.rightChild.children, s.rightChild.pairs);
    }
  }

  /** A split of a leaf holds the leaf's pairs with the new one inserted. */
  lemma {:induction false} AddPairLeafFlat<V>(node: Node<V>, m: nat, t: nat, pair: Pair<V>)
    requires t <= |node.pairs| && node.children == []
    ensures var r := AddPair(node, m, t, pair, None);
      Combined(r.0, r.1) == Insert(node.pairs, t, pair) && r.0.children == []
  {
    var r := AddPair(node, m, t, pair, None);
    assert Flat(r.0) == r.0.pairs;
    if r.1.Some? {
      assert Flat(r.1.value.rightChild) == r.1.value.rightChild.pairs;
    }
  }

  /** The pairs a node and the split it hands up hold between them, in order. */
  ghost function Combined<V>(n: Node<V>, split: Option<SplitInfo<V>>): seq<Pair<V>>
  {
    Flat(n) + match split case None => [] case Some(s) => [s.midPair] + Flat(s.rightChild)
  }

  /** The answer of `binary_search_by_key` on the keys of `pairs`: `Ok` or `Err`. */
  datatype SearchResult = Found(index: nat) | NotFound(index: nat)

  /** The number of leading pairs whose key is below `key`. */
  function Position<V>(pairs: seq<Pair<V>>, key: int): (r: nat)
    ensures r <= |pairs| && Below(pairs[..r], key)
    ensures r < |pairs| ==> pairs[r].0 >= key
  {
    if pairs == [] || pairs[0].0 >= key then 0
    else
      var r := 1 + Position(pairs[1..], key);
      assert pairs[..r] == [pairs[0]] + pairs[1..][..r - 1];
      r
  }

  /**
   * `binary_search_by_key` on sorted keys: `Found(i)` when pair `i` has `key`, otherwise
   * `NotFound(i)` with `i` the place where `key` would be inserted.
   */
  function BinarySearch<V>(pairs: seq<Pair<V>>, key: int): (r: SearchResult)
    ensures r.Found? ==> r.index < |pairs| && pairs[r.index].0 == key
    ensures r.NotFound? ==> r.index <= |pairs| && Below(pairs[..r.index], key)
    ensures r.NotFound? && Sorted(pairs) ==> Above(pairs[r.index..], key)
  {
    var i := Position(pairs, key);
    if i < |pairs| && pairs[i].0 == key then Found(i)
    else
      assert Sorted(pairs) ==> Above(pairs[i..], key) by {
        if Sorted(pairs) && i < |pairs| {
          forall j | 0 <= j < |pairs[i..]|
            ensures pairs[i..][j].0 > key
          {
            assert pairs[i..][j] == pairs[i + j];
          }
        }
      }
      NotFound(i)
  }

  // ---------------------------------------------------------------------------------------
  // Insertion
  // ---------------------------------------------------------------------------------------

  datatype AddResult<V> = AddResult(node: Node<V>, split: Option<SplitInfo<V>>, oldValue: Option<V>)

  /**
   * `BTree::add_r`: a pair with `key` gets the new value (the old one is returned); otherwise
   * the pair goes into the leaf at its binary-search position, or the descent continues into
   * the child there, and a split the child hands up is added to this node with `add_pair`.
   * The source counts the new pair in `length` exactly on the path with no old value.
   */
  function AddR<V>(node: Node<V>, maxChildrenLength: nat, key: int, value: V): (r: AddResult<V>)
    requires Wellformed(node)
    ensures Wellformed(r.node)
    ensures r.split.Some? ==> Wellformed(r.split.value.rightChild) && r.oldValue.None?
    ensures node.children != [] ==> r.node.children != []
    decreases node
  {
    match BinarySearch(node.pairs, key)
    case Found(i) =>
      AddResult(node.(pairs := node.pairs[i := (node.pairs[i].0, value)]), None, Some(node.pairs[i].1))
    case NotFound(i) =>
      if i >= |node.children| then
        var (n, split) := AddPair(node, maxChildrenLength, i, (key, value), None);
        AddResult(n, split, None)
      else
        var sub := AddR(node.children[i], maxChildrenLength, key, value);
        var updated := node.(children := node.children[i := sub.node]);
        assert forall j :: 0 <= j < |updated.children| ==> Wellformed(updated.children[j]);
        match sub.split
        case None => AddResult(updated, None, sub.oldValue)
        case Some(s) =>
          var (n, split) := AddPair(updated, maxChildrenLength, i, s.midPair, Some(s.rightChild));
          WellformedAfterSplit(updated, maxChildrenLength, i, s.midPair, s.rightChild);
          AddResult(n, split, None)
  }

  /** `add_pair` on a well-formed internal node with a well-formed new child. */
  lemma {:induction false} WellformedAfterSplit<V>(node: Node<V>, m: nat, t: nat, pair: Pair<V>, rc: Node<V>)
    requires Wellformed(node) && Wellformed(rc) && node.children != [] && t <= |node.pairs|
    ensures var r := AddPair(node, m, t, pair, Some(rc));
      && Wellformed(r.0) && r.0.children != []
      && (r.1.Some? ==> Wellformed(r.1.value.rightChild))
  {
    var r := AddPair(node, m, t, pair, Some(rc));
    var all := Insert(node.children, t + 1, rc);
    assert forall j :: 0 <= j < |all| ==> Wellformed(all[j]);
    if r.1.Some? {
      var rs := r.1.value.rightChild;
      assert r.0.children + rs.children == all;
      WellformedParts(r.0.children, rs.children);
      assert |rs.children| == |rs.pairs| + 1;
    }
  }

  /** The parts of a sequence of well-formed nodes are sequences of well-formed nodes. */
  lemma WellformedParts<V>(xs: seq<Node<V>>, ys: seq<Node<V>>)
    requires forall j :: 0 <= j < |xs + ys| ==> Wellformed((xs + ys)[j])
    ensures forall j :: 0 <= j < |xs| ==> Wellformed(xs[j])
    ensures forall j :: 0 <= j < |ys| ==> Wellformed(ys[j])
  {
    forall j | 0 <= j < |xs|
      ensures Wellformed(xs[j])
    {
      assert xs[j] == (xs + ys)[j];
    }
    forall j | 0 <= j < |ys|
      ensures Wellformed(ys[j])
    {
      assert ys[j] == (xs + ys)[|xs| + j];
    }
  }

  /**
   * What `add_r` does to the pairs: the node and the split it hands up hold, in order, the
   * sorted pairs with `(key, value)` put in its place; the value returned is the one the
   * key had.
   */
  lemma {:induction false} AddRFlat<V>(node: Node<V>, m: nat, key: int, value: V)
    requires Wellformed(node) && Sorted(Flat(node))
    ensures var r := AddR(node, m, key, value);
      && Combined(r.node, r.split) == InsertSorted(Flat(node), (key, value))
      && r.oldValue == Get(Flat(node), key)
    decreases node
  {
    var cs, ps := node.children, node.pairs;
    var f := Flat(node);
    match BinarySearch(ps, key)
    case Found(i) =>
      var j := SetPair(node, i, (ps[i].0, value));
      InsertSortedAt(f, j, (key, value));
      GetAt(f, j);
    case NotFound(i) =>
      if i >= |cs| {
        assert cs == [] && f == Weave([], ps) == ps;
        AddPairLeafFlat(node, m, i, (key, value));
        InsertSortedPos(ps, i, (key, value));
        LeafAbsent(ps, key, i);
      } else {
        ChildBounds(node, key, i);
        AddRFlat(cs[i], m, key, value);
        AddRChildFlat(node, m, key, value, i);
      }
  }

  /** A key that binary search does not find in sorted pairs is absent from them. */
  lemma {:induction false} LeafAbsent<V>(ps: seq<Pair<V>>, key: int, i: nat)
    requires i <= |ps| && Below(ps[..i], key) && Above(ps[i..], key)
    ensures Get(ps, key) == None
  {
    forall k | 0 <= k < |ps|
      ensures ps[k].0 != key
    {
      if k < i {
        assert ps[..i][k] == ps[k];
      } else {
        assert ps[i..][k - i] == ps[k];
      }
    }
    GetAbsent(ps, key);
  }

  /**
   * Where binary search sends the descent: child `i` holds every pair of the node whose key
   * lies between pairs `i - 1` and `i`, all pairs before it are below `key` and all after above.
   */
  lemma {:induction false} ChildBounds<V>(node: Node<V>, key: int, i: nat)
    requires Wellformed(node) && Sorted(Flat(node)) && i < |node.children|
    requires BinarySearch(node.pairs, key) == NotFound(i)
    ensures var cs, ps := node.children, node.pairs;
      var a, rest := Weave(cs[..i], ps[..i]), Tail(cs[i + 1..], ps[i..]);
      && Flat(node) == a + Flat(cs[i]) + rest
      && Below(a, key) && Above(rest, key) && Sorted(Flat(cs[i]))
  {
    var cs, ps := node.children, node.pairs;
    var a, rest := Weave(cs[..i], ps[..i]), Tail(cs[i + 1..], ps[i..]);
    WeaveAround(cs, ps, i);
    WeaveEnds(cs, ps, i);
    assert i > 0 ==> a[|a| - 1] == ps[i - 1] && ps[..i][i - 1] == ps[i - 1];
    SortedBelow(a, Flat(cs[i]), rest, key);
    if i < |ps| {
      assert rest[0] == ps[i] && ps[i..][0] == ps[i];
    }
    SortedAbove(a, Flat(cs[i]), rest, key);
    SortedPart(a, Flat(cs[i]), rest);
  }

  /** The step of `AddRFlat` that takes the child's insertion up into the node. */
  lemma {:induction false} AddRChildFlat<V>(node: Node<V>, m: nat, key: int, value: V, i: nat)
    requires Wellformed(node) && i < |node.children|
    requires BinarySearch(node.pairs, key) == NotFound(i)
    requires var cs, ps := node.children, node.pairs;
      var a, rest := Weave(cs[..i], ps[..i]), Tail(cs[i + 1..], ps[i..]);
      && Flat(node) == a + Flat(cs[i]) + rest
      && Below(a, key) && Above(rest, key)
    requires var sub := AddR(node.children[i], m, key, value);
      && Combined(sub.node, sub.split) == InsertSorted(Flat(node.children[i]), (key, value))
      && sub.oldValue == Get(Flat(node.children[i]), key)
    ensures var r := AddR(node, m, key, value);
      && Combined(r.node, r.split) == InsertSorted(Flat(node), (key, value))
      && r.oldValue == Get(Flat(node), key)
  {
    var cs, ps := node.children, node.pairs;
    var a, rest := Weave(cs[..i], ps[..i]), Tail(cs[i + 1..], ps[i..]);
    AddRChildCombined(node, m, key, value, i);
    InsertSortedMiddle(a, Flat(cs[i]), rest, (key, value));
    GetMiddle(a, Flat(cs[i]), rest, key);
  }

  /** `add_r` through child `i`: what the child and its split hold lands between the pairs around it. */
  lemma {:induction false} AddRChildCombined<V>(node: Node<V>, m: nat, key: int, value: V, i: nat)
    requires Wellformed(node) && i < |node.children|
    requires BinarySearch(node.pairs, key) == NotFound(i)
    ensures var cs, ps := node.children, node.pairs;
      var r, sub := AddR(node, m, key, value), AddR(cs[i], m, key, value);
      && Combined(r.node, r.split) == Weave(cs[..i], ps[..i]) + Combined(sub.node, sub.split) + Tail(cs[i + 1..], ps[i..])
      && r.oldValue == sub.oldValue
  {
    var sub := AddR(node.children[i], m, key, value);
    if sub.split.None? {
      var r := AddR(node, m, key, value);
      assert r == AddResult(node.(children := node.children[i := sub.node]), None, sub.oldValue);
      ReplaceChildFlat(node.children, node.pairs, i, sub.node);
    } else {
      AddRChildSplit(node, m, key, value, i);
    }
  }

  /** The case of `AddRChildCombined` where the child hands up a split. */
  lemma {:induction false} AddRChildSplit<V>(node: Node<V>, m: nat, key: int, value: V, i: nat)
    requires Wellformed(node) && i < |node.children|
    requires BinarySearch(node.pairs, key) == NotFound(i)
    requires AddR(node.children[i], m, key, value).split.Some?
    ensures var cs, ps := node.children, node.pairs;
      var r, sub := AddR(node, m, key, value), AddR(cs[i], m, key, value);
      && Combined(r.node, r.split) == Weave(cs[..i], ps[..i]) + Combined(sub.node, sub.split) + Tail(cs[i + 1..], ps[i..])
      && r.oldValue == sub.oldValue
  {
    var cs, ps := node.children, node.pairs;
    var sub := AddR(cs[i], m, key, value);
    var s := sub.split.value;
    var updated := node.(children := cs[i := sub.node]);
    var added := AddPair(updated, m, i, s.midPair, Some(s.rightChild));
    var r := AddR(node, m, key, value);
    assert r == AddResult(added.0, added.1, sub.oldValue);
    var a, rest := Weave(cs[..i], ps[..i]), Tail(cs[i + 1..], ps[i..]);
    AddPairFlat(updated, m, i, s.midPair, s.rightChild);
    InsertChildFlat(cs, ps, i, sub.node, s.midPair, s.rightChild);
    assert Combined(r.node, r.split) == a + Flat(sub.node) + [s.midPair] + Flat(s.rightChild) + rest;
    assert Combined(sub.node, sub.split) == Flat(sub.node) + ([s.midPair] + Flat(s.rightChild));
    Regroup(a, Flat(sub.node), s.midPair, Flat(s.rightChild), rest);
  }

  lemma Regroup<T>(a: seq<T>, x: seq<T>, mid: T, y: seq<T>, r: seq<T>)
    ensures a + x + [mid] + y + r == a + (x + ([mid] + y)) + r
  {
  }

  /** A child replaced by another node: the pairs around it stay. */
  lemma {:induction false} ReplaceChildFlat<V>(cs: seq<Node<V>>, ps: seq<Pair<V>>, i: nat, c: Node<V>)
    requires |cs| == |ps| + 1 && i < |cs|
    ensures Weave(cs[i := c], ps) == Weave(cs[..i], ps[..i]) + Flat(c) + Tail(cs[i + 1..], ps[i..])
  {
    WeaveAround(cs[i := c], ps, i);
    assert cs[i := c][..i] == cs[..i] && cs[i := c][i + 1..] == cs[i + 1..];
  }

  /** A child replaced by a split of itself: its pairs, the middle pair, the new child's. */
  lemma {:induction false} InsertChildFlat<V>(cs: seq<Node<V>>, ps: seq<Pair<V>>, i: nat, c: Node<V>, mid: Pair<V>, rc: Node<V>)
    requires |cs| == |ps| + 1 && i < |cs|
    ensures Weave(Insert(cs[i := c], i + 1, rc), Insert(ps, i, mid))
      == Weave(cs[..i], ps[..i]) + Flat(c) + [mid] + Flat(rc) + Tail(cs[i + 1..], ps[i..])
  {
    var cs', ps' := Insert(cs[i := c], i + 1, rc), Insert(ps, i, mid);
    assert cs' == cs[..i] + ([c, rc] + cs[i + 1..]);
    assert ps' == ps[..i] + ([mid] + ps[i..]);
    WeaveConcat(cs[..i], ps[..i], [c, rc] + cs[i + 1..], [mid] + ps[i..]);
    assert [c, rc] + cs[i + 1..] == [c] + ([rc] + cs[i + 1..]);
    WeaveCons(c, [rc] + cs[i + 1..], [mid] + ps[i..]);
    assert ([mid] + ps[i..])[1..] == ps[i..];
    WeaveCons(rc, cs[i + 1..], ps[i..]);
  }

  /** Setting pair `i` of a node sets one place `j` of its in-order pairs. */
  lemma {:induction false} SetPair<V>(node: Node<V>, i: nat, p: Pair<V>) returns (j: nat)
    requires Wellformed(node) && i < |node.pairs|
    ensures j < |Flat(node)| && Flat(node)[j] == node.pairs[i]
    ensures Flat(node.(pairs := node.pairs[i := p])) == Flat(node)[j := p]
  {
    var cs, ps := node.children, node.pairs;
    if cs == [] {
      j := i;
    } else {
      var ps' := ps[i := p];
      WeaveAroundPair(cs, ps, i);
      WeaveAroundPair(cs, ps', i);
      assert ps'[..i] == ps[..i] && ps'[i + 1..] == ps[i + 1..];
      j := |Weave(cs[..i + 1], ps[..i])|;
    }
  }

  /** `add_r` keeps every leaf at the same depth, and a split it hands up is as deep as the node. */
  lemma {:induction false} AddRLevelled<V>(node: Node<V>, m: nat, key: int, value: V, h: nat)
    requires Wellformed(node) && Levelled(node, h)
    ensures var r := AddR(node, m, key, value);
      && Levelled(r.node, h)
      && (r.split.Some? ==> Levelled(r.split.value.rightChild, h))
    decreases node
  {
    var cs, ps := node.children, node.pairs;
    match BinarySearch(ps, key)
    case Found(i) =>
      assert forall j :: 0 <= j < |cs| ==> Levelled(cs[j], h - 1);
    case NotFound(i) =>
      if i < |cs| {
        AddRLevelled(cs[i], m, key, value, h - 1);
        var sub := AddR(cs[i], m, key, value);
        var updated := node.(children := cs[i := sub.node]);
        assert forall j :: 0 <= j < |updated.children| ==> Levelled(updated.children[j], h - 1);
        if sub.split.Some? {
          var s := sub.split.value;
          LevelledAfterSplit(updated, m, i, s.midPair, s.rightChild, h);
        }
      }
  }

  /** `add_pair` on an internal node at depth `h` with a new child at depth `h - 1`. */
  lemma {:induction false} LevelledAfterSplit<V>(node: Node<V>, m: nat, t: nat, pair: Pair<V>, rc: Node<V>, h: nat)
    requires Levelled(node, h) && h > 0 && Levelled(rc, h - 1)
    requires t <= |node.pairs| && |node.children| == |node.pairs| + 1
    ensures var r := AddPair(node, m, t, pair, Some(rc));
      Levelled(r.0, h) && (r.1.Some? ==> Levelled(r.1.value.rightChild, h))
  {
    var r := AddPair(node, m, t, pair, Some(rc));
    var all := Insert(node.children, t + 1, rc);
    assert forall j :: 0 <= j < |all| ==> Levelled(all[j], h - 1);
    if r.1.Some? {
      var rs := r.1.value.rightChild;
      forall j | 0 <= j < |r.0.children|
        ensures Levelled(r.0.children[j], h - 1)
      {
        assert r.0.children[j] == all[j];
      }
      forall j | 0 <= j < |rs.children|
        ensures Levelled(rs.children[j], h - 1)
      {
        assert rs.children[j] == all[|r.0.children| + j];
      }
    }
  }

  // ---------------------------------------------------------------------------------------
  // Removal
  // ---------------------------------------------------------------------------------------

  /**
   * `BTree::remove_right_most_r`: takes the last pair of the right-most leaf. `None` stands
   * for the panic of `pop().unwrap()` when that leaf holds no pair.
   */
  function RemoveRightMost<V>(node: Node<V>): (r: Option<(Node<V>, Pair<V>)>)
    requires Wellformed(node)
    ensures Flat(node) == [] ==> r.None?
    ensures r.Some? ==> Wellformed(r.value.0) && Flat(r.value.0) + [r.value.1] == Flat(node)
    ensures r.Some? ==> r.value.0.pairs == node.pairs || node.children == []
    ensures r.Some? ==> |r.value.0.children| == |node.children|
    decreases node
  {
    if node.children == [] then
      if node.pairs == [] then None
      else
        var n := node.(pairs := node.pairs[..|node.pairs| - 1]);
        assert Flat(node) == node.pairs && Flat(n) == n.pairs;
        assert n.pairs + [node.pairs[|node.pairs| - 1]] == node.pairs;
        Some((n, node.pairs[|node.pairs| - 1]))
    else
      var k := |node.children| - 1;
      WeaveAround(node.children, node.pairs, k);
      WeaveEnds(node.children, node.pairs, k);
      match RemoveRightMost(node.children[k])
      case None => None
      case Some((c, p)) =>
        var n := node.(children := node.children[k := c]);
        WeaveAround(n.children, n.pairs, k);
        assert n.children[..k] == node.children[..k];
        WeaveEnds(n.children, n.pairs, k);
        var a := Weave(node.children[..k], node.pairs[..k]);
        assert Flat(node) == a + Flat(node.children[k]);
        assert Flat(n) == a + Flat(c);
        assert forall j :: 0 <= j < |n.children| ==> Wellformed(n.children[j]);
        Some((n, p))
  }

  /** The result of `remove_r`: the value removed, nothing found, or the `unwrap` panic. */
  datatype Removal<V> = Removed(node: Node<V>, value: V) | Absent | Panicked

  /**
   * `BTree::remove_r`: a pair with `key` in a leaf is removed; in an internal node it is
   * replaced by the right-most pair of the child to its left. Otherwise the descent
   * continues into the child at the binary-search position, and a leaf ends it with nothing.
   * The source counts one pair less in `length` exactly when a pair leaves a leaf.
   */
  function RemoveR<V>(node: Node<V>, key: int): (r: Removal<V>)
    requires Wellformed(node)
    ensures r.Removed? ==> Wellformed(r.node) && |r.node.children| == |node.children|
    ensures r.Removed? && node.children != [] ==> |r.node.pairs| == |node.pairs|
    decreases node
  {
    match BinarySearch(node.pairs, key)
    case Found(i) =>
      if i >= |node.children| then
        Removed(node.(pairs := node.pairs[..i] + node.pairs[i + 1..]), node.pairs[i].1)
      else
        (match RemoveRightMost(node.children[i])
         case None => Panicked
         case Some((c, pre)) =>
           var n := Node(node.pairs[i := pre], node.children[i := c]);
           assert forall j :: 0 <= j < |n.children| ==> Wellformed(n.children[j]);
           Removed(n, node.pairs[i].1))
    case NotFound(i) =>
      if i >= |node.children| then Absent
      else
        match RemoveR(node.children[i], key)
        case Removed(c, v) =>
          var n := node.(children := node.children[i := c]);
          assert forall j :: 0 <= j < |n.children| ==> Wellformed(n.children[j]);
          Removed(n, v)
        case Absent => Absent
        case Panicked => Panicked
  }

  /**
   * What `remove_r` does to the pairs: nothing is found exactly when the key is absent; a
   * removal returns the key's value and leaves the sorted pairs without it; a panic happens
   * only when the key is present.
   */
  lemma {:induction false} RemoveRFlat<V>(node: Node<V>, key: int)
    requires Wellformed(node) && Sorted(Flat(node))
    ensures var r := RemoveR(node, key);
      && (r.Absent? <==> Get(Flat(node), key).None?)
      && (r.Removed? ==> Get(Flat(node), key) == Some(r.value) && Flat(r.node) == Delete(Flat(node), key))
    decreases node
  {
    var cs, ps := node.children, node.pairs;
    var f := Flat(node);
    match BinarySearch(ps, key)
    case Found(i) =>
      if i >= |cs| {
        assert cs == [] && f == ps;
        GetAt(f, i);
        DeleteAt(f, i);
      } else {
        RemovePairFlat(node, i);
      }
    case NotFound(i) =>
      if i >= |cs| {
        assert cs == [] && f == ps;
        LeafAbsent(ps, key, i);
      } else {
        var c := cs[i];
        var a, rest := Weave(cs[..i], ps[..i]), Tail(cs[i + 1..], ps[i..]);
        ChildBounds(node, key, i);
        RemoveRFlat(c, key);
        GetMiddle(a, Flat(c), rest, key);
        DeleteMiddle(a, Flat(c), rest, key);
        match RemoveR(c, key)
        case Removed(c', v) =>
          var n := node.(children := cs[i := c']);
          WeaveAround(n.children, ps, i);
          assert n.children[..i] == cs[..i] && n.children[i + 1..] == cs[i + 1..];
        case Absent =>
        case Panicked =>
      }
  }

  /**
   * Pair `i` of an internal node replaced by the right-most pair of the child to its left:
   * the in-order pairs lose pair `i`, which holds the searched key.
   */
  lemma {:induction false} RemovePairFlat<V>(node: Node<V>, i: nat)
    requires Wellformed(node) && Sorted(Flat(node)) && i < |node.pairs| && node.children != []
    ensures var key := node.pairs[i].0;
      && Get(Flat(node), key) == Some(node.pairs[i].1)
      && match RemoveRightMost(node.children[i])
         case None => true
         case Some((c, pre)) =>
           Flat(Node(node.pairs[i := pre], node.children[i := c])) == Delete(Flat(node), key)
  {
    var cs, ps := node.children, node.pairs;
    var f := Flat(node);
    var a, b := Weave(cs[..i], ps[..i]), Weave(cs[i + 1..], ps[i + 1..]);
    WeavePair(cs, ps, i);
    var j := |a| + |Flat(cs[i])|;
    PickOut(a + Flat(cs[i]), ps[i], b);
    GetAt(f, j);
    DeleteAt(f, j);
    match RemoveRightMost(cs[i]) {
      case None =>
      case Some((c, pre)) =>
        SwapLeft(cs, ps, i, c, pre);
    }
  }

  /** The middle element of `x + [m] + z`, and what lies around it. */
  lemma PickOut<T>(x: seq<T>, m: T, z: seq<T>)
    ensures (x + [m] + z)[|x|] == m
    ensures (x + [m] + z)[..|x|] == x && (x + [m] + z)[|x| + 1..] == z
  {
  }

  /**
   * Child `i` and pair `i` replaced by a child and a pair that weave to the old child's pairs:
   * the weave loses pair `i` and nothing else.
   */
  lemma {:induction false} SwapLeft<V>(cs: seq<Node<V>>, ps: seq<Pair<V>>, i: nat, c: Node<V>, pre: Pair<V>)
    requires |cs| == |ps| + 1 && i < |ps| && Flat(c) + [pre] == Flat(cs[i])
    ensures Weave(cs[i := c], ps[i := pre]) == Weave(cs[..i], ps[..i]) + Flat(cs[i]) + Weave(cs[i + 1..], ps[i + 1..])
  {
    WeavePair(cs[i := c], ps[i := pre], i);
    assert cs[i := c][..i] == cs[..i] && cs[i := c][i + 1..] == cs[i + 1..];
    assert ps[i := pre][..i] == ps[..i] && ps[i := pre][i + 1..] == ps[i + 1..];
  }

  /** The pairs of a well-formed node around its pair `i`, with the child to its left. */
  lemma {:induction false} WeavePair<V>(cs: seq<Node<V>>, ps: seq<Pair<V>>, i: nat)
    requires |cs| == |ps| + 1 && i < |ps|
    ensures Weave(cs, ps) == Weave(cs[..i], ps[..i]) + Flat(cs[i]) + [ps[i]] + Weave(cs[i + 1..], ps[i + 1..])
  {
    WeaveAround(cs, ps, i);
    assert ps[i..][0] == ps[i] && ps[i..][1..] == ps[i + 1..];
  }

  /** `remove_right_most_r` keeps every leaf at the same depth. */
  lemma {:induction false} RemoveRightMostLevelled<V>(node: Node<V>, h: nat)
    requires Wellformed(node) && Levelled(node, h)
    ensures RemoveRightMost(node).Some? ==> Levelled(RemoveRightMost(node).value.0, h)
    decreases node
  {
    if node.children != [] {
      var k := |node.children| - 1;
      RemoveRightMostLevelled(node.children[k], h - 1);
    }
  }

  /** `remove_r` keeps every leaf at the same depth. */
  lemma {:induction false} RemoveRLevelled<V>(node: Node<V>, key: int, h: nat)
    requires Wellformed(node) && Levelled(node, h)
    ensures RemoveR(node, key).Removed? ==> Levelled(RemoveR(node, key).node, h)
    decreases node
  {
    match BinarySearch(node.pairs, key)
    case Found(i) =>
      if i < |node.children| {
        RemoveRightMostLevelled(node.children[i], h - 1);
      }
    case NotFound(i) =>
      if i < |node.children| {
        RemoveRLevelled(node.children[i], key, h - 1);
      }
  }

  // ---------------------------------------------------------------------------------------
  // Validation
  // ---------------------------------------------------------------------------------------

  /**
   * `BTree::validate`: the level of the leaves under `node`, or `None` (the source's
   * `Err`) when an internal node has more than `maxChildrenLength` children, fewer than
   * `maxChildrenLength / 2` (fewer than 2 at the top), or leaves at different levels.
   */
  function Validate<V>(node: Node<V>, maxChildrenLength: nat, nodeLevel: nat): Option<nat>
    decreases node, 1, 0
  {
    if node.children == [] then Some(nodeLevel)
    else if |node.children| > maxChildrenLength then None
    else if |node.children| < (if nodeLevel > 0 then maxChildrenLength / 2 else 2) then None
    else match Validate(node.children[0], maxChildrenLength, nodeLevel + 1)
      case None => None
      case Some(childLevel) => ValidateRest(node, 1, maxChildrenLength, nodeLevel + 1, childLevel)
  }

  /** The `for` loop of `validate` over the children from `i` on. */
  function ValidateRest<V>(node: Node<V>, i: nat, maxChildrenLength: nat, nextLevel: nat, childLevel: nat): Option<nat>
    decreases node, 0, |node.children| - i
  {
    if i >= |node.children| then Some(childLevel)
    else match Validate(node.children[i], maxChildrenLength, nextLevel)
      case None => None
      case Some(l) => if l != childLevel then None else ValidateRest(node, i + 1, maxChildrenLength, nextLevel, childLevel)
  }

  /** The child counts `validate` asks for, at every internal node under `node`. */
  ghost predicate ChildCounts<V>(node: Node<V>, maxChildrenLength: nat, top: bool)
    decreases node
  {
    node.children == [] ||
      (&& |node.children| <= maxChildrenLength
       && |node.children| >= (if top then 2 else maxChildrenLength / 2)
       && forall i :: 0 <= i < |node.children| ==> ChildCounts(node.children[i], maxChildrenLength, false))
  }

  /**
   * `validate` succeeds exactly when the child counts are right and all leaves are at one
   * depth `h`, and then it reports the level `nodeLevel + h`.
   */
  lemma {:induction false} ValidateExact<V>(node: Node<V>, m: nat, nodeLevel: nat)
    ensures Validate(node, m, nodeLevel).Some? <==>
      ChildCounts(node, m, nodeLevel == 0) && exists h: nat :: Levelled(node, h)
    ensures forall h: nat :: Levelled(node, h) && ChildCounts(node, m, nodeLevel == 0) ==>
      Validate(node, m, nodeLevel) == Some(nodeLevel + h)
    decreases node, 1, 0
  {
    if node.children == [] {
      assert Levelled(node, 0);
    } else {
      var cs := node.children;
      forall i | 0 <= i < |cs|
        ensures Validate(cs[i], m, nodeLevel + 1).Some? <==>
          ChildCounts(cs[i], m, false) && exists h: nat :: Levelled(cs[i], h)
        ensures forall h: nat :: Levelled(cs[i], h) && ChildCounts(cs[i], m, false) ==>
          Validate(cs[i], m, nodeLevel + 1) == Some(nodeLevel + 1 + h)
      {
        ValidateExact(cs[i], m, nodeLevel + 1);
      }
      LevelledUnique(node);
      if Validate(node, m, nodeLevel).Some? {
        var l := Validate(cs[0], m, nodeLevel + 1).value;
        ValidateRestExact(node, 1, m, nodeLevel + 1, l);
        var h0: nat :| Levelled(cs[0], h0);
        assert forall i :: 0 <= i < |cs| ==> Levelled(cs[i], h0);
        assert Levelled(node, h0 + 1);
      } else if |cs| <= m && |cs| >= (if nodeLevel > 0 then m / 2 else 2) && Validate(cs[0], m, nodeLevel + 1).Some? {
        var l := Validate(cs[0], m, nodeLevel + 1).value;
        ValidateRestExact(node, 1, m, nodeLevel + 1, l);
      }
    }
  }

  /** Leaf depth, when there is one, is unique. */
  lemma {:induction false} LevelledUnique<V>(node: Node<V>)
    ensures forall h: nat, k: nat :: Levelled(node, h) && Levelled(node, k) ==> h == k
    decreases node
  {
    if node.children != [] {
      LevelledUnique(node.children[0]);
    }
  }

  /** The loop of `validate` succeeds exactly when every remaining child validates at `childLevel`. */
  lemma {:induction false} ValidateRestExact<V>(node: Node<V>, i: nat, m: nat, nextLevel: nat, childLevel: nat)
    requires i <= |node.children|
    ensures ValidateRest(node, i, m, nextLevel, childLevel).Some? <==>
      forall j :: i <= j < |node.children| ==> Validate(node.children[j], m, nextLevel) == Some(childLevel)
    ensures ValidateRest(node, i, m, nextLevel, childLevel).Some? ==>
      ValidateRest(node, i, m, nextLevel, childLevel) == Some(childLevel)
    decreases |node.children| - i
  {
    if i < |node.children| {
      ValidateRestExact(node, i + 1, m, nextLevel, childLevel);
    }
  }

  // ---------------------------------------------------------------------------------------
  // The tree
  // ---------------------------------------------------------------------------------------

  /** The root after `add`: the node `add_r` left, or a new root over it and the split. */
  function Grow<V>(r: AddResult<V>): (n: Node<V>)
    ensures Flat(n) == Combined(r.node, r.split)
  {
    match r.split
    case None => r.node
    case Some(s) => NewRoot(s.midPair, r.node, s.rightChild)
  }

  class BTree<V> {
    var root: Option<Node<V>>
    var maxChildrenLength: nat
    var length: nat
    /** The depth of the leaves. */
    ghost var height: nat

    ghost predicate Valid()
      reads this
    {
      match root
      case None => length == 0
      case Some(r) =>
        && Wellformed(r) && Levelled(r, height) && Sorted(Flat(r))
        && r.pairs != [] && length == |Flat(r)|
    }

    /** The pairs of the tree, in key order. */
    ghost function Contents(): seq<Pair<V>>
      reads this
    {
      match root case None => [] case Some(r) => Flat(r)
    }

    /** `BTree::new`: an empty tree. */
    constructor (maxChildrenLength: nat)
      ensures Valid() && Contents() == [] && length == 0
      ensures this.maxChildrenLength == maxChildrenLength
    {
      root := None;
      this.maxChildrenLength := maxChildrenLength;
      length := 0;
      height := 0;
    }

    /** `BTree::is_valid`: an empty tree is valid; otherwise `validate` from level 0 succeeds. */
    function IsValid(): (r: bool)
      reads this
      ensures r <==> root.None? || (ChildCounts(root.value, maxChildrenLength, true) && exists h: nat :: Levelled(root.value, h))
    {
      match root
      case None => true
      case Some(r) =>
        ValidateExact(r, maxChildrenLength, 0);
        Validate(r, maxChildrenLength, 0).Some?
    }

    /**
     * `BTree::add`: `add_r` from the root (a new empty leaf when there is none); a split
     * reaching the top becomes a new root one level up. The tree then holds the pairs with
     * `(key, value)` put in its place; the old value of `key` is returned, and `length`
     * grows by one exactly when there was none.
     */
    method Add(key: int, value: V) returns (oldValue: Option<V>)
      requires Valid()
      modifies this
      ensures Valid()
      ensures Contents() == InsertSorted(old(Contents()), (key, value))
      ensures oldValue == Get(old(Contents()), key)
      ensures length == old(length) + (if oldValue.None? then 1 else 0)
      ensures maxChildrenLength == old(maxChildrenLength)
      ensures root == Some(Grow(AddR(if old(root).None? then Node([], []) else old(root).value,
        maxChildrenLength, key, value)))
    {
      var node := if root.None? then Node([], []) else root.value;
      var h := if root.None? then 0 else height;
      assert Levelled(node, h) && Flat(node) == Contents();
      var r := AddR(node, maxChildrenLength, key, value);
      oldValue := r.oldValue;
      AddRoot(node, maxChildrenLength, key, value, h);
      if r.oldValue.None? {
        length := length + 1;
      }
      root := Some(Grow(r));
      height := if r.split.None? then h else h + 1;
    }

    /**
     * `BTree::remove`: `remove_r` from the root. A removal returns the key's value, leaves
     * the tree without it and counts one pair less; a root left with no pairs is dropped.
     * An absent key leaves everything as it was. On the `unwrap` panic the root has been
     * taken out of the tree.
     */
    method Remove(key: int) returns (r: Removal<V>)
      requires Valid()
      modifies this
      ensures r.Absent? <==> Get(old(Contents()), key).None?
      ensures r.Absent? ==> root == old(root) && length == old(length)
      ensures r.Removed? ==> Valid() && Get(old(Contents()), key) == Some(r.value)
      ensures r.Removed? ==> Contents() == Delete(old(Contents()), key) && length == old(length) - 1
      ensures r == (if old(root).None? then Absent else RemoveR(old(root).value, key))
      ensures r.Removed? ==> root == (if r.node.pairs == [] then None else Some(r.node))
      ensures r.Removed? ==> (root.None? <==> Contents() == [])
      ensures r.Panicked? ==> root == None && length == old(length) - 1
      ensures maxChildrenLength == old(maxChildrenLength)
    {
      match root
      case None =>
        GetAbsent<V>([], key);
        return Absent;
      case Some(node) =>
        r := RemoveR(node, key);
        RemoveRFlat(node, key);
        match r
        case Absent =>
        case Panicked =>
          // the root was taken out before the descent, and the count lowered before `unwrap`
          root := None;
          length := length - 1;
        case Removed(n, v) =>
          RemoveRoot(node, key, height);
          length := length - 1;
          if n.pairs == [] {
            root := None;
          } else {
            root := Some(n);
          }
          if root.None? {
            height := 0;
          }
          r := Removed(n, v);
    }
  }

  /**
   * An insertion at the root of a valid tree (or into an empty leaf): the grown root holds the
   * sorted pairs with the new one in its place, has a pair, keeps every leaf at one depth
   * (one level deeper after a split), and the old value of the key comes back.
   */
  lemma AddRoot<V>(node: Node<V>, m: nat, key: int, value: V, h: nat)
    requires Wellformed(node) && Levelled(node, h) && Sorted(Flat(node))
    requires node.pairs != [] || node.children == []
    ensures var r := AddR(node, m, key, value); var g := Grow(r);
      && Wellformed(g) && Levelled(g, if r.split.None? then h else h + 1) && g.pairs != []
      && Flat(g) == InsertSorted(Flat(node), (key, value)) && Sorted(Flat(g))
      && r.oldValue == Get(Flat(node), key)
      && |Flat(g)| == |Flat(node)| + (if r.oldValue.None? then 1 else 0)
  {
    var r := AddR(node, m, key, value);
    AddRFlat(node, m, key, value);
    AddRLevelled(node, m, key, value, h);
    InsertSortedKeeps(Flat(node), (key, value));
    if r.split.None? {
      RootKeepsPairs(node, m, key, value);
    }
  }

  /**
   * A removal from a valid root: the new root holds the sorted pairs without the key, one
   * fewer, with every leaf at the old depth; it has a pair exactly when pairs are left.
   */
  lemma RemoveRoot<V>(node: Node<V>, key: int, height: nat)
    requires Wellformed(node) && Levelled(node, height) && Sorted(Flat(node)) && node.pairs != []
    requires RemoveR(node, key).Removed?
    ensures var n := RemoveR(node, key).node;
      && Wellformed(n) && Levelled(n, height) && Sorted(Flat(n))
      && Flat(n) == Delete(Flat(node), key) && |Flat(n)| == |Flat(node)| - 1
      && (n.pairs == [] <==> Flat(n) == [])
  {
    var n := RemoveR(node, key).node;
    RemoveRFlat(node, key);
    RemoveRLevelled(node, key, height);
    DeleteKeeps(Flat(node), key);
    if n.pairs == [] {
      assert n.children == [];
    } else {
      FlatHasPairs(n);
    }
  }

  /** A well-formed node with a pair has a pair in order. */
  lemma {:induction false} FlatHasPairs<V>(n: Node<V>)
    requires Wellformed(n) && n.pairs != []
    ensures Flat(n) != []
  {
    if n.children != [] {
      WeavePair(n.children, n.pairs, 0);
    }
  }

  /** The keys of two nodes, and of all nodes under them, are laid out alike. */
  ghost predicate SameShape<V>(a: Node<V>, b: Node<V>)
    decreases a
  {
    && |a.pairs| == |b.pairs| && (forall i :: 0 <= i < |a.pairs| ==> a.pairs[i].0 == b.pairs[i].0)
    && |a.children| == |b.children|
    && forall i :: 0 <= i < |a.children| ==> SameShape(a.children[i], b.children[i])
  }

  lemma {:induction false} SameShapeRefl<V>(a: Node<V>)
    ensures SameShape(a, a)
    decreases a
  {
    forall i | 0 <= i < |a.children|
      ensures SameShape(a.children[i], a.children[i])
    {
      SameShapeRefl(a.children[i]);
    }
  }

  /**
   * `add_r` with a key the tree holds only swaps the value: no split, and every node keeps
   * its keys and children.
   */
  lemma {:induction false} AddRPresentKeepsShape<V>(node: Node<V>, m: nat, key: int, value: V)
    requires Wellformed(node) && Sorted(Flat(node)) && Get(Flat(node), key).Some?
    ensures AddR(node, m, key, value).split.None?
    ensures SameShape(AddR(node, m, key, value).node, node)
    decreases node
  {
    var cs, ps := node.children, node.pairs;
    match BinarySearch(ps, key)
    case Found(i) =>
      forall k | 0 <= k < |cs|
        ensures SameShape(cs[k], cs[k])
      {
        SameShapeRefl(cs[k]);
      }
    case NotFound(i) =>
      if i >= |cs| {
        assert cs == [] && Flat(node) == Weave([], ps) == ps;
        LeafAbsent(ps, key, i);
      } else {
        ChildBounds(node, key, i);
        GetMiddle(Weave(cs[..i], ps[..i]), Flat(cs[i]), Tail(cs[i + 1..], ps[i..]), key);
        AddRPresentKeepsShape(cs[i], m, key, value);
        var sub := AddR(cs[i], m, key, value);
        forall k | 0 <= k < |cs|
          ensures SameShape(cs[i := sub.node][k], cs[k])
        {
          if k != i {
            SameShapeRefl(cs[k]);
          }
        }
      }
  }

  /** Without a split, `add_r` leaves the pairs of a node with pairs non-empty. */
  lemma {:induction false} RootKeepsPairs<V>(node: Node<V>, m: nat, key: int, value: V)
    requires Wellformed(node) && (node.pairs != [] || node.children == [])
    requires AddR(node, m, key, value).split.None?
    ensures AddR(node, m, key, value).node.pairs != []
  {
    match BinarySearch(node.pairs, key)
    case Found(i) =>
    case NotFound(i) =>
      if i < |node.children| {
        var sub := AddR(node.children[i], m, key, value);
        if sub.split.Some? {
          var s := sub.split.value;
          assert |AddPair(node.(children := node.children[i := sub.node]), m, i, s.midPair, Some(s.rightChild)).0.pairs| == |node.pairs| + 1;
        }
      }
  }

  /**
   * `remove` has no underflow repair, so it can reach its `unwrap` panic on a tree that
   * `is_valid` accepts: with at most 3 children, adding 5, 1 and 7 splits the root leaf
   * into [5] over [1] and [7]; removing 1 empties the left leaf, and removing 5 then looks
   * for its predecessor in that empty leaf.
   */
  lemma RemovePanicScenario()
    ensures var n1 := Grow(AddR(Node([], []), 3, 5, 50));
      var n2 := Grow(AddR(n1, 3, 1, 10));
      var n3 := Grow(AddR(n2, 3, 7, 70));
      && n3 == Node([(5, 50)], [Node([(1, 10)], []), Node([(7, 70)], [])])
      && RemoveR(n3, 1) == Removed(Node([(5, 50)], [Node([], []), Node([(7, 70)], [])]), 10)
      && Validate(RemoveR(n3, 1).node, 3, 0) == Some(1)
      && RemoveR(RemoveR(n3, 1).node, 5) == Panicked
  {
    ScenarioFirstAdds();
    ScenarioSplit();
    ScenarioRemoveLeaf();
    ScenarioPanic();
  }

  // The first two additions of `RemovePanicScenario` fill the root leaf.
  lemma ScenarioFirstAdds()
    ensures Grow(AddR(Node([], []), 3, 5, 50)) == Node([(5, 50)], [])
    ensures Grow(AddR(Node([(5, 50)], []), 3, 1, 10)) == Node([(1, 10), (5, 50)], [])
  {
    assert BinarySearch<int>([], 5) == NotFound(0);
    var n1: Node<int> := Node([(5, 50)], []);
    assert Position(n1.pairs, 1) == 0;
    assert BinarySearch(n1.pairs, 1) == NotFound(0);
  }

  // The third addition splits the full root leaf and grows a new root.
  lemma ScenarioSplit()
    ensures Grow(AddR(Node([(1, 10), (5, 50)], []), 3, 7, 70))
      == Node([(5, 50)], [Node([(1, 10)], []), Node([(7, 70)], [])])
  {
    var n2: Node<int> := Node([(1, 10), (5, 50)], []);
    ScenarioSplitSearch();
    ScenarioSplitPair();
    var left, s := Node([(1, 10)], []), SplitInfo((5, 50), Node([(7, 70)], []));
    assert AddR(n2, 3, 7, 70) == AddResult(left, Some(s), None);
  }

  // Key 7 goes after both keys of the full leaf.
  lemma ScenarioSplitSearch()
    ensures BinarySearch<int>([(1, 10), (5, 50)], 7) == NotFound(2)
  {
    var ps: seq<Pair<int>> := [(1, 10), (5, 50)];
    assert Position(ps[1..], 7) == 1;
  }

  // `add_pair` on the full leaf takes the `Greater` arm.
  lemma ScenarioSplitPair()
    ensures AddPair(Node([(1, 10), (5, 50)], []), 3, 2, (7, 70), None)
      == (Node([(1, 10)], []), Some(SplitInfo((5, 50), Node([(7, 70)], []))))
  {
    ScenarioSplitAfter();
  }

  // The `Greater` arm sends 5 up and keeps 1 on the left.
  lemma ScenarioSplitAfter()
    ensures SplitAfter(Node([(1, 10), (5, 50)], []), 2, (7, 70), None)
      == (Node([(1, 10)], []), SplitInfo((5, 50), Node([(7, 70)], [])))
  {
    var ps: seq<Pair<int>> := [(1, 10), (5, 50)];
    assert ps[2..] == [];
    var rightPairs := Insert(ps[2..], 0, (7, 70));
    assert rightPairs == [(7, 70)] by {
      assert rightPairs == [] + [(7, 70)] + [];
    }
    assert ps[..1] == [(1, 10)];
  }

  // Removing 1 empties the left leaf and leaves the root alone.
  lemma ScenarioRemoveLeaf()
    ensures RemoveR(Node([(5, 50)], [Node([(1, 10)], []), Node([(7, 70)], [])]), 1)
      == Removed(Node([(5, 50)], [Node([], []), Node([(7, 70)], [])]), 10)
  {
    var n3: Node<int> := Node([(5, 50)], [Node([(1, 10)], []), Node([(7, 70)], [])]);
    assert BinarySearch(n3.pairs, 1) == NotFound(0);
    assert BinarySearch(n3.children[0].pairs, 1) == Found(0);
  }

  // The emptied tree still validates, and removing 5 finds no predecessor.
  lemma ScenarioPanic()
    ensures Validate(Node([(5, 50)], [Node([], []), Node([(7, 70)], [])]), 3, 0) == Some(1)
    ensures RemoveR(Node([(5, 50)], [Node([], []), Node([(7, 70)], [])]), 5) == Panicked
  {
    var leaf: Node<int> := Node([], []);
    var n4 := Node([(5, 50)], [leaf, Node([(7, 70)], [])]);
    assert ValidateRest(n4, 2, 3, 1, 1) == Some(1);
    assert ValidateRest(n4, 1, 3, 1, 1) == Some(1);
    assert BinarySearch(n4.pairs, 5) == Found(0);
    assert RemoveRightMost(leaf) == None;
  }

}
