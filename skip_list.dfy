/**
 * The skip-list transaction log of ch04_list/src/skip_list.rs. Nodes live in an arena in
 * append order; node `i` has one forward link per level it takes part in (`next`, whose
 * length is the node's height). The log keeps the first node as `head` and, per level, the
 * last node taking part in it as `tails[level]`.
 */
module SkipList {
  import opened Wrappers

  const USIZE_MAX: nat := 0xFFFF_FFFF_FFFF_FFFF

  type u64 = x: int | 0 <= x < 0x1_0000_0000_0000_0000

  datatype Node = Node(next: seq<Option<nat>>, offset: u64, command: string)

  /** The number of levels node `i` takes part in. */
  function Height(nodes: seq<Node>, i: nat): nat
    requires i < |nodes|
  {
    |nodes[i].next|
  }

  /**
   * The link of node `i` at level `l` points to the first later node (among the first
   * `count`) taking part in level `l`, or is `None` when there is none.
   */
  ghost predicate NextOk(nodes: seq<Node>, i: nat, l: nat, count: nat)
    requires i < count <= |nodes| && l < |nodes[i].next|
  {
    match nodes[i].next[l]
    case None => forall k :: i < k < count ==> |nodes[k].next| <= l
    case Some(j) =>
      && i < j < count && l < |nodes[j].next|
      && forall k :: i < k < j ==> |nodes[k].next| <= l
  }

  /** `tail` is the last node (among the first `count`) taking part in level `l`. */
  ghost predicate TailOk(nodes: seq<Node>, tail: Option<nat>, l: nat, count: nat)
    requires count <= |nodes|
  {
    match tail
    case None => forall k :: 0 <= k < count ==> |nodes[k].next| <= l
    case Some(t) =>
      && t < count && l < |nodes[t].next|
      && forall k :: t < k < count ==> |nodes[k].next| <= l
  }

  /** Level `l` is linked correctly among the first `count` nodes. */
  ghost predicate LevelLinked(nodes: seq<Node>, tail: Option<nat>, l: nat, count: nat)
    requires count <= |nodes|
  {
    && (forall i :: 0 <= i < count && l < |nodes[i].next| ==> NextOk(nodes, i, l, count))
    && TailOk(nodes, tail, l, count)
  }

  /** Appending a node does not disturb the links among the nodes before it. */
  lemma LevelLinkedAppend(nodes: seq<Node>, tail: Option<nat>, l: nat, x: Node)
    requires LevelLinked(nodes, tail, l, |nodes|)
    ensures LevelLinked(nodes + [x], tail, l, |nodes|)
  {
    var nodes' := nodes + [x];
    forall i | 0 <= i < |nodes| && l < |nodes'[i].next|
      ensures NextOk(nodes', i, l, |nodes|)
    {
      assert NextOk(nodes, i, l, |nodes|);
    }
  }

  /** A node taking part in no level `l` or above does not affect level `l`. */
  lemma LevelLinkedSkip(nodes: seq<Node>, tail: Option<nat>, l: nat, n: nat)
    requires n < |nodes| && |nodes[n].next| <= l
    requires LevelLinked(nodes, tail, l, n)
    ensures LevelLinked(nodes, tail, l, n + 1)
  {
    forall i | 0 <= i < n + 1 && l < |nodes[i].next|
      ensures NextOk(nodes, i, l, n + 1)
    {
      assert NextOk(nodes, i, l, n);
    }
  }

  /**
   * One round of the loop in `append`: the new node `n` becomes the successor of the old
   * tail at level `l` and the new tail there.
   */
  lemma LinkAtLevel(nodes: seq<Node>, tail: Option<nat>, l: nat, n: nat)
    requires n + 1 == |nodes| && l < |nodes[n].next| && nodes[n].next[l] == None
    requires LevelLinked(nodes, tail, l, n)
    ensures
      var nodes' := if tail.Some? then Link(nodes, tail.value, l, n) else nodes;
      LevelLinked(nodes', Some(n), l, n + 1)
  {
    var nodes' := if tail.Some? then Link(nodes, tail.value, l, n) else nodes;
    forall i | 0 <= i < n + 1 && l < |nodes'[i].next|
      ensures NextOk(nodes', i, l, n + 1)
    {
      if i < n && !(tail.Some? && i == tail.value) {
        assert NextOk(nodes, i, l, n);
        assert nodes'[i] == nodes[i];
      }
    }
  }

  /** Node `t`'s link at level `l` set to `n`. */
  function Link(nodes: seq<Node>, t: nat, l: nat, n: nat): (r: seq<Node>)
    requires t < |nodes| && l < |nodes[t].next|
    ensures |r| == |nodes|
    ensures forall i :: 0 <= i < |r| ==> r[i].offset == nodes[i].offset && r[i].command == nodes[i].command
    ensures forall i :: 0 <= i < |r| ==> |r[i].next| == |nodes[i].next|
  {
    nodes[t := nodes[t].(next := nodes[t].next[l := Some(n)])]
  }

  /** Setting a link at level `l` leaves every other level as linked as before. */
  lemma LinkFrame(nodes: seq<Node>, tail: Option<nat>, t: nat, l: nat, n: nat, m: nat, count: nat)
    requires t < |nodes| && l < |nodes[t].next| && count <= |nodes| && m != l
    requires LevelLinked(nodes, tail, m, count)
    ensures LevelLinked(Link(nodes, t, l, n), tail, m, count)
  {
    var nodes' := Link(nodes, t, l, n);
    forall i | 0 <= i < count && m < |nodes'[i].next|
      ensures NextOk(nodes', i, m, count)
    {
      assert NextOk(nodes, i, m, count);
      assert nodes'[i].next[m] == nodes[i].next[m];
    }
  }

  /**
   * The state inside the loop of `append` after `i` rounds: the new node `n` is linked in
   * and is the tail at the levels below `i`; the levels from `i` on are as before.
   */
  ghost predicate AppendInv(nodes: seq<Node>, tails: seq<Option<nat>>, i: nat, n: nat, level: nat,
    maxLevel: nat, oldTails: seq<Option<nat>>)
  {
    && |nodes| == n + 1 && |tails| == maxLevel + 1 && |oldTails| == maxLevel + 1
    && i <= level <= maxLevel + 1 && |nodes[n].next| == level
    && (forall l :: i <= l < level ==> nodes[n].next[l] == None)
    && (forall l :: 0 <= l < i ==> tails[l] == Some(n) && LevelLinked(nodes, Some(n), l, n + 1))
    && (forall l :: i <= l <= maxLevel ==> tails[l] == oldTails[l] && LevelLinked(nodes, tails[l], l, n))
  }

  /**
   * The links after appending a node to `before`, whose tails were `tails`: old heights stay,
   * the new last node links nowhere yet, and an old link changes only where its node was the
   * tail of a level the new node takes part in, which now leads to the new node.
   */
  ghost predicate AppendedLinks(before: seq<Node>, after: seq<Node>, tails: seq<Option<nat>>)
  {
    && |after| == |before| + 1
    && (forall k :: 0 <= k < |before| ==> |after[k].next| == |before[k].next|)
    && after[|before|].next == seq(|after[|before|].next|, _ => None)
    && (forall k, l {:trigger after[k].next[l]} :: 0 <= k < |before| && 0 <= l < |before[k].next| ==>
          after[k].next[l] ==
            if l < |after[|before|].next| && l < |tails| && tails[l] == Some(k) then Some(|before|)
            else before[k].next[l])
  }

  /** Every tail is a node before `n`. */
  ghost predicate TailsBefore(tails: seq<Option<nat>>, n: nat)
  {
    forall l :: 0 <= l < |tails| && tails[l].Some? ==> tails[l].value < n
  }

  /**
   * `after` is `mid` with the same heights, where at each level below `level` the node that
   * was the tail there links to `n`, and every other link is as it was.
   */
  ghost predicate LinksAfterTails(mid: seq<Node>, after: seq<Node>, tails: seq<Option<nat>>, level: nat, n: nat)
  {
    && |after| == |mid| && level <= |tails|
    && (forall k :: 0 <= k < |after| ==> |after[k].next| == |mid[k].next|)
    && forall k, l {:trigger after[k].next[l]} :: 0 <= k < |after| && 0 <= l < |after[k].next| ==>
      after[k].next[l] == if l < level && tails[l] == Some(k) then Some(n) else mid[k].next[l]
  }

  /** What the loop of `append` does to the links, in terms of the nodes before the new one. */
  lemma AppendedFrame(before: seq<Node>, node: Node, mid: seq<Node>, after: seq<Node>,
    tails: seq<Option<nat>>, level: nat)
    requires mid == before + [node] && node.next == seq(level, _ => None)
    requires TailsBefore(tails, |before|) && LinksAfterTails(mid, after, tails, level, |before|)
    ensures AppendedLinks(before, after, tails)
  {
    var n := |before|;
    forall l | 0 <= l < level
      ensures after[n].next[l] == None
    {
      assert mid[n].next[l] == None && |after[n].next| == level;
      assert tails[l] != Some(n);
    }
    forall k, l | 0 <= k < n && 0 <= l < |before[k].next|
      ensures after[k].next[l] ==
        if l < |after[n].next| && l < |tails| && tails[l] == Some(k) then Some(n) else before[k].next[l]
    {
      assert mid[k] == before[k] && |after[k].next| == |mid[k].next|;
      assert |after[n].next| == |mid[n].next| == level;
    }
  }

  /** After an append, the old tail of each level the new node takes part in links to it. */
  lemma AppendedTails(before: seq<Node>, after: seq<Node>, tails: seq<Option<nat>>, maxLevel: nat)
    requires AppendedLinks(before, after, tails) && |tails| == maxLevel + 1
    requires |after[|before|].next| <= maxLevel + 1
    requires forall l :: 0 <= l <= maxLevel ==> LevelLinked(before, tails[l], l, |before|)
    ensures forall l :: 0 <= l < |after[|after| - 1].next| && tails[l].Some? ==>
      && tails[l].value < |before| && l < |before[tails[l].value].next|
      && after[tails[l].value].next[l] == Some(|after| - 1)
  {
    forall l | 0 <= l < |after[|after| - 1].next| && tails[l].Some?
      ensures tails[l].value < |before| && l < |before[tails[l].value].next|
      ensures after[tails[l].value].next[l] == Some(|after| - 1)
    {
      assert TailOk(before, tails[l], l, |before|);
    }
  }

  /** One round of the loop in `append`. */
  lemma AppendStep(nodes: seq<Node>, tails: seq<Option<nat>>, i: nat, n: nat, level: nat,
    maxLevel: nat, oldTails: seq<Option<nat>>)
    requires AppendInv(nodes, tails, i, n, level, maxLevel, oldTails) && i < level
    ensures tails[i].Some? ==> tails[i].value < |nodes| && i < |nodes[tails[i].value].next|
    ensures
      var nodes' := if tails[i].Some? then Link(nodes, tails[i].value, i, n) else nodes;
      AppendInv(nodes', tails[i := Some(n)], i + 1, n, level, maxLevel, oldTails)
  {
    assert LevelLinked(nodes, tails[i], i, n);
    var nodes' := if tails[i].Some? then Link(nodes, tails[i].value, i, n) else nodes;
    var tails' := tails[i := Some(n)];
    AppendStepBelow(nodes, tails, i, n, level, maxLevel, oldTails, n + 1);
    AppendStepAbove(nodes, tails, i, n, level, maxLevel, oldTails);
    assert nodes'[n] == nodes[n];
    forall l | 0 <= l < i + 1
      ensures tails'[l] == Some(n) && LevelLinked(nodes', Some(n), l, n + 1)
    {
      if l < i {
        assert tails[l] == Some(n);
      }
    }
  }

  /** One round of the loop in `append`, at the levels done so far and the current one. */
  lemma AppendStepBelow(nodes: seq<Node>, tails: seq<Option<nat>>, i: nat, n: nat, level: nat,
    maxLevel: nat, oldTails: seq<Option<nat>>, n1: nat)
    requires AppendInv(nodes, tails, i, n, level, maxLevel, oldTails) && i < level && n1 == n + 1
    ensures tails[i].Some? ==> tails[i].value < |nodes| && i < |nodes[tails[i].value].next|
    ensures
      var nodes' := if tails[i].Some? then Link(nodes, tails[i].value, i, n) else nodes;
      forall l :: 0 <= l < i + 1 ==> LevelLinked(nodes', Some(n), l, n1)
  {
    assert LevelLinked(nodes, tails[i], i, n);
    LinkAtLevel(nodes, tails[i], i, n);
    var nodes' := if tails[i].Some? then Link(nodes, tails[i].value, i, n) else nodes;
    assert LevelLinked(nodes', Some(n), i, n1);
    forall l | 0 <= l < i
      ensures LevelLinked(nodes, Some(n), l, n1)
    {
      assert tails[l] == Some(n);
    }
    LinkedBelow(nodes, tails[i], i, n, Some(n), n1);
  }

  /** One round of the loop in `append`, at the levels not reached yet. */
  lemma AppendStepAbove(nodes: seq<Node>, tails: seq<Option<nat>>, i: nat, n: nat, level: nat,
    maxLevel: nat, oldTails: seq<Option<nat>>)
    requires AppendInv(nodes, tails, i, n, level, maxLevel, oldTails) && i < level
    requires tails[i].Some? ==> tails[i].value < |nodes| && i < |nodes[tails[i].value].next|
    ensures
      var nodes' := if tails[i].Some? then Link(nodes, tails[i].value, i, n) else nodes;
      forall l :: i + 1 <= l <= maxLevel ==>
        tails[i := Some(n)][l] == oldTails[l] && LevelLinked(nodes', tails[i := Some(n)][l], l, n)
  {
    LinkedAbove(nodes, tails, i, n, maxLevel);
  }

  /** The levels below `i` stay linked when the link at level `i` is set. */
  lemma LinkedBelow(nodes: seq<Node>, t: Option<nat>, i: nat, n: nat, tail: Option<nat>, count: nat)
    requires count <= |nodes|
    requires t.Some? ==> t.value < |nodes| && i < |nodes[t.value].next|
    requires forall l :: 0 <= l < i ==> LevelLinked(nodes, tail, l, count)
    ensures
      var nodes' := if t.Some? then Link(nodes, t.value, i, n) else nodes;
      forall l :: 0 <= l < i ==> LevelLinked(nodes', tail, l, count)
  {
    if t.Some? {
      forall m | 0 <= m < i
        ensures LevelLinked(Link(nodes, t.value, i, n), tail, m, count)
      {
        LinkFrame(nodes, tail, t.value, i, n, m, count);
      }
    }
  }

  /** The levels above `i` stay linked when the link at level `i` is set. */
  lemma LinkedAbove(nodes: seq<Node>, tails: seq<Option<nat>>, i: nat, n: nat, maxLevel: nat)
    requires |tails| == maxLevel + 1 && i <= maxLevel && n <= |nodes|
    requires tails[i].Some? ==> tails[i].value < |nodes| && i < |nodes[tails[i].value].next|
    requires forall l :: i < l <= maxLevel ==> LevelLinked(nodes, tails[l], l, n)
    ensures
      var nodes' := if tails[i].Some? then Link(nodes, tails[i].value, i, n) else nodes;
      forall l :: i < l <= maxLevel ==> LevelLinked(nodes', tails[l], l, n)
  {
    if tails[i].Some? {
      forall m | i < m <= maxLevel
        ensures LevelLinked(Link(nodes, tails[i].value, i, n), tails[m], m, n)
      {
        LinkFrame(nodes, tails[m], tails[i].value, i, n, m, n);
      }
    }
  }

  /** After the loop in `append`, the levels above the new node's height gain nothing. */
  lemma AppendDone(nodes: seq<Node>, tails: seq<Option<nat>>, n: nat, level: nat,
    maxLevel: nat, oldTails: seq<Option<nat>>)
    requires AppendInv(nodes, tails, level, n, level, maxLevel, oldTails)
    ensures forall l :: 0 <= l <= maxLevel ==> LevelLinked(nodes, tails[l], l, n + 1)
  {
    forall l | level <= l <= maxLevel
      ensures LevelLinked(nodes, tails[l], l, n + 1)
    {
      LevelLinkedSkip(nodes, tails[l], l, n);
    }
  }

  /** Offsets were appended in strictly increasing order. */
  ghost predicate Increasing(nodes: seq<Node>)
  {
    forall i, j :: 0 <= i < j < |nodes| ==> nodes[i].offset < nodes[j].offset
  }

  /**
   * Where the inner loop of `find` stops: if offsets increase and the successor of `r` at
   * level `l` is missing or past `offset`, so is every later node taking part in `l`.
   */
  lemma PastTarget(nodes: seq<Node>, r: nat, l: nat, offset: int)
    requires Increasing(nodes) && r < |nodes| && l < |nodes[r].next| && NextOk(nodes, r, l, |nodes|)
    requires nodes[r].next[l].Some? ==> nodes[nodes[r].next[l].value].offset > offset
    ensures forall k :: r < k < |nodes| && l < |nodes[k].next| ==> nodes[k].offset > offset
  {
    forall k | r < k < |nodes| && l < |nodes[k].next|
      ensures nodes[k].offset > offset
    {
      match nodes[r].next[l]
      case Some(j) =>
        assert j <= k;
      case None =>
    }
  }

  /** The command of the first entry with `offset`, if any. */
  ghost function Lookup(entries: seq<(u64, string)>, offset: int): Option<string>
  {
    if entries == [] then None
    else if entries[0].0 == offset then Some(entries[0].1)
    else Lookup(entries[1..], offset)
  }

  /** The first entry with `offset` is the one `Lookup` finds. */
  lemma {:induction false} LookupFirst(entries: seq<(u64, string)>, offset: int, k: nat)
    requires k < |entries| && entries[k].0 == offset
    requires forall i :: 0 <= i < k ==> entries[i].0 != offset
    ensures Lookup(entries, offset) == Some(entries[k].1)
  {
    if k > 0 {
      LookupFirst(entries[1..], offset, k - 1);
    }
  }

  /** `Lookup` finds nothing for an offset no entry has. */
  lemma {:induction false} LookupAbsent(entries: seq<(u64, string)>, offset: int)
    requires forall i :: 0 <= i < |entries| ==> entries[i].0 != offset
    ensures Lookup(entries, offset) == None
  {
    if entries != [] {
      LookupAbsent(entries[1..], offset);
    }
  }

  /** The `(offset, command)` pair a node holds. */
  function EntryOf(n: Node): (u64, string)
  {
    (n.offset, n.command)
  }

  class BestTransactionLog {
    var nodes: seq<Node>
    var head: Option<nat>
    var tails: seq<Option<nat>>
    var maxLevel: nat
    var length: nat

    ghost predicate Valid()
      reads this
    {
      && maxLevel < USIZE_MAX
      && |tails| == maxLevel + 1
      && length == |nodes|
      && head == (if nodes == [] then None else Some(0))
      && (nodes != [] ==> |nodes[0].next| == maxLevel + 1)
      && (forall i :: 0 <= i < |nodes| ==> 1 <= |nodes[i].next| <= maxLevel + 1)
      && (forall l :: 0 <= l <= maxLevel ==> LevelLinked(nodes, tails[l], l, |nodes|))
    }

    /** The `(offset, command)` pairs in append order. */
    ghost function Entries(): seq<(u64, string)>
      reads this
    {
      seq(|nodes|, i requires 0 <= i < |nodes| reads this => EntryOf(nodes[i]))
    }

    /** `new_empty`: no head, no nodes, and `max_level + 1` empty tails. */
    constructor NewEmpty(maxLevel: nat)
      requires maxLevel < USIZE_MAX
      ensures Valid() && Entries() == [] && length == 0 && head == None
      ensures this.maxLevel == maxLevel && tails == seq(maxLevel + 1, _ => None)
    {
      this.nodes := [];
      this.head := None;
      this.tails := seq(maxLevel + 1, _ => None);
      this.maxLevel := maxLevel;
      this.length := 0;
    }

    /** `length`: the number of appended entries. */
    function Length(): (r: nat)
      reads this
      requires Valid()
      ensures r == |Entries()|
    {
      length
    }

    /**
     * `append`: the first node takes part in every level; a later one in `1 + randomLevel`
     * levels, where `randomLevel` stands for `random_level()` (at most `max_level`). At each
     * of its levels the node is linked after the old tail and becomes the new tail.
     */
    method Append(offset: u64, command: string, randomLevel: nat)
      requires Valid() && randomLevel <= maxLevel
      modifies this
      ensures Valid()
      ensures Entries() == old(Entries()) + [(offset, command)]
      ensures length == old(length) + 1 && maxLevel == old(maxLevel)
      ensures |nodes[|nodes| - 1].next| == 1 + (if old(head).None? then maxLevel else randomLevel)
      ensures old(head).Some? ==> head == old(head)
      ensures forall l :: 0 <= l <= maxLevel ==>
        tails[l] == if l < |nodes[|nodes| - 1].next| then Some(|nodes| - 1) else old(tails[l])
      ensures AppendedLinks(old(nodes), nodes, old(tails))
      ensures forall l :: 0 <= l < |nodes[|nodes| - 1].next| && old(tails[l]).Some? ==>
        && old(tails[l]).value < |old(nodes)| && l < |old(nodes)[old(tails[l]).value].next|
        && nodes[old(tails[l]).value].next[l] == Some(|nodes| - 1)
    {
      var level := 1 + if head.None? then maxLevel else randomLevel;
      var n := |nodes|;
      ghost var entries := Entries();
      ghost var n1 := n + 1;
      var node := Node(seq(level, _ => None), offset, command);
      var appended := nodes + [node];
      forall l | 0 <= l <= maxLevel
        ensures LevelLinked(appended, tails[l], l, n)
      {
        LevelLinkedAppend(nodes, tails[l], l, node);
      }
      nodes := appended;
      assert AppendInv(nodes, tails, 0, n, level, maxLevel, tails);
      LinkNew(n, level);
      AppendDone(nodes, tails, n, level, maxLevel, old(tails));
      AppendedFrame(old(nodes), node, appended, nodes, old(tails), level);
      AppendedTails(old(nodes), nodes, old(tails), maxLevel);
      if head.None? {
        head := Some(n);
      }
      length := length + 1;
      assert Entries() == entries + [(offset, command)];
    }

    /**
     * The loop of `append`: at each of the `level` lowest levels, the new last node `n` is
     * linked after the tail and becomes the tail.
     */
    method LinkNew(n: nat, level: nat)
      requires AppendInv(nodes, tails, 0, n, level, maxLevel, tails)
      modifies this
      ensures AppendInv(nodes, tails, level, n, level, maxLevel, old(tails))
      ensures maxLevel == old(maxLevel) && head == old(head) && length == old(length)
      ensures |nodes| == |old(nodes)|
      ensures forall k :: 0 <= k < |nodes| ==> EntryOf(nodes[k]) == EntryOf(old(nodes)[k])
      ensures forall k :: 0 <= k < |nodes| ==> |nodes[k].next| == |old(nodes)[k].next|
      ensures TailsBefore(old(tails), n)
      ensures LinksAfterTails(old(nodes), nodes, old(tails), level, n)
    {
      forall l | 0 <= l < |tails| && tails[l].Some?
        ensures tails[l].value < n
      {
        assert TailOk(nodes, tails[l], l, n);
      }
      for i := 0 to level
        invariant maxLevel == old(maxLevel) && head == old(head) && length == old(length)
        invariant |nodes| == |old(nodes)|
        invariant forall k :: 0 <= k < |nodes| ==> EntryOf(nodes[k]) == EntryOf(old(nodes)[k])
        invariant forall k :: 0 <= k < |nodes| ==> |nodes[k].next| == |old(nodes)[k].next|
        invariant AppendInv(nodes, tails, i, n, level, maxLevel, old(tails))
        invariant LinksAfterTails(old(nodes), nodes, old(tails), i, n)
      {
        AppendStep(nodes, tails, i, n, level, maxLevel, old(tails));
        if tails[i].Some? {
          nodes := Link(nodes, tails[i].value, i, n);
        }
        tails := tails[i := Some(n)];
      }
    }
    /**
     * The first loop of `find` on a non-empty log: lowers `max_level` from the top until the
     * head has a successor there. Below zero the `usize` wraps to its maximum, which is past
     * the head's height, and the search gives up; that happens exactly when the head is the
     * only node. Otherwise the level found is the highest any later node takes part in.
     */
    method TopLevel() returns (r: Option<nat>)
      requires Valid() && head.Some?
      ensures r.None? <==> |nodes| == 1
      ensures r.Some? ==> r.value <= maxLevel && nodes[0].next[r.value].Some?
      ensures r.Some? ==> forall k :: 0 < k < |nodes| ==> |nodes[k].next| <= r.value + 1
    {
      var h := head.value;
      var maxLvl: nat := maxLevel;
      while true
        invariant h == 0 && maxLvl <= maxLevel
        invariant forall l :: maxLvl < l <= maxLevel ==> nodes[h].next[l].None?
        decreases maxLvl
      {
        if nodes[h].next[maxLvl].Some? {
          break;
        }
        assert LevelLinked(nodes, tails[maxLvl], maxLvl, |nodes|);
        assert NextOk(nodes, h, maxLvl, |nodes|);
        if maxLvl == 0 {
          assert 1 <= |nodes[|nodes| - 1].next|;
        }
        // `max_level -= 1` on a usize: below zero it wraps (a debug build panics instead)
        maxLvl := if maxLvl == 0 then USIZE_MAX else maxLvl - 1;
        if maxLvl >= |nodes[h].next| {
          return None;
        }
      }
      assert LevelLinked(nodes, tails[maxLvl], maxLvl, |nodes|);
      assert NextOk(nodes, h, maxLvl, |nodes|);
      forall k | 0 < k < |nodes|
        ensures |nodes[k].next| <= maxLvl + 1
      {
        var l := |nodes[k].next| - 1;
        assert LevelLinked(nodes, tails[l], l, |nodes|);
        assert NextOk(nodes, h, l, |nodes|);
      }
      return Some(maxLvl);
    }

    /**
     * The inner loop of `find` at one level: moves forward from `node` along `level` while
     * the next node's offset is not past `offset`. It stops at a node whose successor at
     * that level is missing or past `offset`; when offsets increase, every later node taking
     * part in `level` is then past `offset`.
     */
    method Advance(node: nat, level: nat, offset: u64) returns (r: nat)
      requires Valid() && node < |nodes| && level < |nodes[node].next|
      requires node == 0 || nodes[node].offset <= offset
      ensures node <= r < |nodes| && level < |nodes[r].next|
      ensures r == node || nodes[r].offset <= offset
      ensures match nodes[r].next[level]
        case None => true
        case Some(j) => j < |nodes| && nodes[j].offset > offset
      ensures Increasing(nodes) ==>
        forall k :: r < k < |nodes| && level < |nodes[k].next| ==> nodes[k].offset > offset
    {
      assert LevelLinked(nodes, tails[level], level, |nodes|);
      r := node;
      while nodes[r].next[level].Some? && nodes[nodes[r].next[level].value].offset <= offset
        invariant node <= r < |nodes| && level < |nodes[r].next|
        invariant r == node || nodes[r].offset <= offset
        decreases |nodes| - r
      {
        assert NextOk(nodes, r, level, |nodes|);
        r := nodes[r].next[level].value;
      }
      assert NextOk(nodes, r, level, |nodes|);
      if Increasing(nodes) {
        PastTarget(nodes, r, level, offset);
      }
    }

    /**
     * The search of `find`: returns the head's command when its offset matches; otherwise,
     * from the level `TopLevel` finds, descends level by level with `Advance` and returns the
     * command of the first node it stops at whose offset matches. Whatever it returns is
     * stored under the offset asked for; when offsets were appended in increasing order,
     * `None` means the offset is absent.
     */
    method Search(offset: u64) returns (r: Option<string>)
      requires Valid()
      ensures r.Some? ==> exists k :: 0 <= k < |nodes| && EntryOf(nodes[k]) == (offset, r.value)
      ensures Increasing(nodes) && r.None? ==> forall k :: 0 <= k < |nodes| ==> nodes[k].offset != offset
      ensures nodes != [] && nodes[0].offset == offset ==> r == Some(nodes[0].command)
    {
      if head.None? {
        return None;
      }
      var h := head.value;
      if nodes[h].offset == offset {
        return Some(nodes[h].command);
      }
      var top := TopLevel();
      if top.None? {
        return None;
      }
      var node := h;
      var level := top.value + 1;
      while level > 0
        invariant node < |nodes| && level <= |nodes[node].next|
        invariant node == 0 || nodes[node].offset <= offset
        invariant nodes[node].offset != offset
        invariant Increasing(nodes) ==>
          forall k :: node < k < |nodes| && level < |nodes[k].next| ==> nodes[k].offset > offset
        decreases level
      {
        level := level - 1;
        node := Advance(node, level, offset);
        if nodes[node].offset == offset {
          return Some(nodes[node].command);
        }
      }
      return None;
    }

    /**
     * `find`: whatever it returns is stored under `offset`; when offsets were appended in
     * increasing order, the command appended with `offset`, or `None` when there is none;
     * in any order, a hit at the head.
     */
    method Find(offset: u64) returns (r: Option<string>)
      requires Valid()
      ensures r.Some? ==> exists k :: 0 <= k < |nodes| && EntryOf(nodes[k]) == (offset, r.value)
      ensures Increasing(nodes) ==> r == Lookup(Entries(), offset)
      ensures nodes != [] && nodes[0].offset == offset ==> r == Some(nodes[0].command)
    {
      r := Search(offset);
      if Increasing(nodes) {
        if r.Some? {
          var k :| 0 <= k < |nodes| && EntryOf(nodes[k]) == (offset, r.value);
          LookupFirst(Entries(), offset, k);
        } else {
          LookupAbsent(Entries(), offset);
        }
      }
    }

    /** `iter`: an iterator over the nodes taking part in `level`, from the head. */
    method Iter(level: nat) returns (it: ListIterator)
      requires Valid() && level <= maxLevel
      ensures fresh(it) && it.Valid() && it.nodes == nodes && it.level == level
      ensures it.Remaining == Members(nodes, level, 0)
      ensures level == 0 ==> it.Remaining == seq(|nodes|, k => k)
    {
      it := new ListIterator(this, level);
      if level == 0 {
        MembersBottom(nodes, 0);
      }
    }
  }

  /** The nodes from `i` on that take part in level `l`, in order. */
  ghost function Members(nodes: seq<Node>, l: nat, i: nat): seq<nat>
    decreases |nodes| - i
  {
    if i >= |nodes| then []
    else (if l < |nodes[i].next| then [i] else []) + Members(nodes, l, i + 1)
  }

  /** Nodes below level `l` between `i` and `j` do not count as its members. */
  lemma {:induction false} MembersSkip(nodes: seq<Node>, l: nat, i: nat, j: nat)
    requires i <= j <= |nodes|
    requires forall k :: i <= k < j ==> |nodes[k].next| <= l
    ensures Members(nodes, l, i) == Members(nodes, l, j)
    decreases j - i
  {
    if i < j {
      MembersSkip(nodes, l, i + 1, j);
    }
  }

  /** Every node takes part in level 0, so its members are all the nodes from `i` on. */
  lemma {:induction false} MembersBottom(nodes: seq<Node>, i: nat)
    requires i <= |nodes|
    requires forall k :: 0 <= k < |nodes| ==> 1 <= |nodes[k].next|
    ensures Members(nodes, 0, i) == seq(|nodes| - i, k => i + k)
    decreases |nodes| - i
  {
    if i < |nodes| {
      MembersBottom(nodes, i + 1);
    }
  }

  /**
   * Following the link of a member of level `l` at that level leads to the next member:
   * the members after `i` are those from its successor on.
   */
  lemma MembersNext(nodes: seq<Node>, tail: Option<nat>, l: nat, i: nat)
    requires LevelLinked(nodes, tail, l, |nodes|) && i < |nodes| && l < |nodes[i].next|
    ensures Members(nodes, l, i) == [i] + match nodes[i].next[l]
      case None => []
      case Some(j) => Members(nodes, l, j)
  {
    assert NextOk(nodes, i, l, |nodes|);
    match nodes[i].next[l]
    case None =>
      MembersSkip(nodes, l, i + 1, |nodes|);
    case Some(j) =>
      MembersSkip(nodes, l, i + 1, j);
  }

  /**
   * `ListIterator` over the nodes of one level: `current` is the next node to yield and
   * `Remaining` the members of the level still to come. The iterator sees the nodes as they
   * were when it was made.
   */
  class ListIterator {
    const nodes: seq<Node>
    const level: nat
    ghost const tail: Option<nat>
    var current: Option<nat>
    ghost var Remaining: seq<nat>

    ghost predicate Valid()
      reads this
    {
      && LevelLinked(nodes, tail, level, |nodes|)
      && match current
        case None => Remaining == []
        case Some(c) => c < |nodes| && level < |nodes[c].next| && Remaining == Members(nodes, level, c)
    }

    /** `ListIterator::new(head, level)` as `iter` makes it. */
    constructor (log: BestTransactionLog, level: nat)
      requires log.Valid() && level <= log.maxLevel
      ensures Valid() && nodes == log.nodes && this.level == level
      ensures Remaining == Members(nodes, level, 0)
    {
      nodes := log.nodes;
      this.level := level;
      tail := log.tails[level];
      current := log.head;
      Remaining := Members(log.nodes, level, 0);
      new;
      assert LevelLinked(log.nodes, log.tails[level], level, |log.nodes|);
    }

    /**
     * `next`: yields the `(offset, command)` of the current node and moves to its successor
     * at the iterator's level; `None` once the level is exhausted.
     */
    method Next() returns (r: Option<(u64, string)>)
      requires Valid()
      modifies this
      ensures Valid()
      ensures old(Remaining) == [] ==> r == None && Remaining == []
      ensures old(Remaining) != [] ==>
        && old(Remaining)[0] < |nodes|
        && r == Some(EntryOf(nodes[old(Remaining)[0]]))
        && Remaining == old(Remaining)[1..]
    {
      match current
      case None =>
        r := None;
      case Some(c) =>
        MembersNext(nodes, tail, level, c);
        assert NextOk(nodes, c, level, |nodes|);
        current := nodes[c].next[level];
        Remaining := Remaining[1..];
        r := Some(EntryOf(nodes[c]));
    }
  }

  /**
   * The test at list/tests/skip_list.rs:69-107, on three entries: a log of increasing
   * offsets, whatever levels they draw, finds each offset's command, and nothing for an
   * offset it does not hold.
   */
  method FindScenario(level2: nat, level3: nat) returns (second: Option<string>,
      third: Option<string>, absent: Option<string>, len: nat)
    requires level2 <= 3 && level3 <= 3
    ensures second == Some("VALUES (2)") && third == Some("VALUES (3)") && absent == None
    ensures len == 3
  {
    var log := new BestTransactionLog.NewEmpty(3);
    log.Append(1, "VALUES (1)", 0);
    log.Append(2, "VALUES (2)", level2);
    log.Append(3, "VALUES (3)", level3);
    len := log.Length();
    ghost var entries := log.Entries();
    assert entries == [(1, "VALUES (1)"), (2, "VALUES (2)"), (3, "VALUES (3)")];
    assert forall k :: 0 <= k < |log.nodes| ==> EntryOf(log.nodes[k]) == entries[k];
    assert Increasing(log.nodes);
    LookupFirst(entries, 2, 1);
    LookupFirst(entries, 3, 2);
    LookupAbsent(entries, 7);
    second := log.Find(2);
    third := log.Find(3);
    absent := log.Find(7);
  }

  /** The test at ch04_list/src/tests/skip_list.rs:25-38: a one-entry log finds its entry through the head. */
  method SingleEntryScenario() returns (one: Option<string>, len: nat)
    ensures one == Some("INSERT DATA 0") && len == 1
  {
    var log := new BestTransactionLog.NewEmpty(20);
    log.Append(0, "INSERT DATA 0", 0);
    len := log.Length();
    one := log.Find(0);
  }
}
