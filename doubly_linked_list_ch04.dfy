/**
 * The doubly linked transaction log of ch04_list/src/doubly_linked_list.rs: a FIFO queue of
 * strings with `head`, `tail`, `length`, and iterators that walk `next` links forwards or
 * `prev` links backwards.
 *
 * Nodes live in an arena (`nodes`) and links are arena indices; a popped node stays in the
 * arena, unreachable. The ghost sequence `order` lists the live nodes from head to tail.
 */
module DoublyLinkedListCh04 {
  import opened Wrappers

  datatype Node = Node(value: string, next: Option<nat>, prev: Option<nat>)

  /** The values of the nodes at `order`, in that order. */
  function Values(nodes: seq<Node>, order: seq<nat>): seq<string>
    requires forall k :: 0 <= k < |order| ==> order[k] < |nodes|
  {
    seq(|order|, k requires 0 <= k < |order| => nodes[order[k]].value)
  }

  /** `seq` backwards. */
  function Reverse(s: seq<string>): (r: seq<string>)
    ensures |r| == |s|
    ensures forall k :: 0 <= k < |s| ==> r[k] == s[|s| - 1 - k]
  {
    if s == [] then [] else Reverse(s[1..]) + [s[0]]
  }

  /** `order` is the chain from `head` along `next`, and the chain from `tail` along `prev` reversed. */
  ghost predicate Chain(nodes: seq<Node>, order: seq<nat>, head: Option<nat>, tail: Option<nat>)
  {
    && (forall k :: 0 <= k < |order| ==> order[k] < |nodes|)
    && (forall k, m :: 0 <= k < m < |order| ==> order[k] < order[m])
    && head == (if order == [] then None else Some(order[0]))
    && tail == (if order == [] then None else Some(order[|order| - 1]))
    && (forall k :: 0 <= k < |order| - 1 ==> nodes[order[k]].next == Some(order[k + 1]))
    && (forall k :: 0 < k < |order| ==> nodes[order[k]].prev == Some(order[k - 1]))
    && (order != [] ==> nodes[order[|order| - 1]].next == None && nodes[order[0]].prev == None)
  }

  /**
   * A new node at the end of the arena, linked after the old tail (or as the only node of an
   * empty chain), extends the chain and its values by one.
   */
  lemma ChainAppend(nodes: seq<Node>, order: seq<nat>, head: Option<nat>, tail: Option<nat>, value: string,
      nodes': seq<Node>, head': Option<nat>)
    requires Chain(nodes, order, head, tail)
    requires |nodes'| == |nodes| + 1 && nodes'[|nodes|] == Node(value, None, tail)
    requires forall i :: 0 <= i < |nodes| && Some(i) != tail ==> nodes'[i] == nodes[i]
    requires tail != None ==> nodes'[tail.value] == nodes[tail.value].(next := Some(|nodes|))
    requires head' == if tail == None then Some(|nodes|) else head
    ensures Chain(nodes', order + [|nodes|], head', Some(|nodes|))
    ensures Values(nodes', order + [|nodes|]) == Values(nodes, order) + [value]
  {
    forall i | 0 <= i < |nodes|
      ensures nodes'[i].value == nodes[i].value && nodes'[i].prev == nodes[i].prev
      ensures Some(i) != tail ==> nodes'[i].next == nodes[i].next
    {
      if Some(i) != tail {
        assert nodes'[i] == nodes[i];
      }
    }
    ValuesSame(nodes, nodes', order);
    assert Values(nodes', order + [|nodes|]) == Values(nodes', order) + [value];
  }

  /**
   * Taking the head off the chain, clearing its `next` and the new head's `prev`, leaves the
   * rest of the chain and its values.
   */
  lemma ChainPop(nodes: seq<Node>, order: seq<nat>, head: Option<nat>, tail: Option<nat>,
      nodes': seq<Node>, head': Option<nat>, tail': Option<nat>)
    requires Chain(nodes, order, head, tail) && order != []
    requires |nodes'| == |nodes|
    requires forall i :: 0 <= i < |nodes| ==> nodes'[i].value == nodes[i].value
    requires forall i :: 0 <= i < |nodes| && i != order[0] ==> nodes'[i].next == nodes[i].next
    requires forall i :: 0 <= i < |nodes| && (|order| == 1 || i != order[1]) ==> nodes'[i].prev == nodes[i].prev
    requires |order| > 1 ==> nodes'[order[1]].prev == None
    requires head' == (if |order| == 1 then None else Some(order[1]))
    requires tail' == (if |order| == 1 then None else tail)
    ensures Chain(nodes', order[1..], head', tail')
    ensures Values(nodes', order[1..]) == Values(nodes, order)[1..]
  {
    ValuesSame(nodes, nodes', order);
    assert Values(nodes', order[1..]) == Values(nodes', order)[1..];
  }

  /** Nodes whose values agree give the same values along the same order. */
  lemma ValuesSame(nodes: seq<Node>, nodes': seq<Node>, order: seq<nat>)
    requires |nodes'| >= |nodes|
    requires forall k :: 0 <= k < |order| ==> order[k] < |nodes|
    requires forall i :: 0 <= i < |nodes| ==> nodes'[i].value == nodes[i].value
    ensures Values(nodes', order) == Values(nodes, order)
  {
  }

  class BetterTransactionLog {
    var nodes: seq<Node>
    var head: Option<nat>
    var tail: Option<nat>
    var length: nat
    ghost var order: seq<nat>

    /** `order` is the chain of the log's nodes, and `length` counts them. */
    ghost predicate Valid()
      reads this
    {
      |order| == length && Chain(nodes, order, head, tail)
    }

    /** The queued values, oldest first. */
    ghost function Contents(): seq<string>
      reads this
      requires Valid()
    {
      Values(nodes, order)
    }

    /** `length`: the number of queued values. */
    function Length(): (n: nat)
      reads this
      requires Valid()
      ensures n == |Contents()|
    {
      length
    }

    /** `new_empty`: no head, no tail, length 0. */
    constructor NewEmpty()
      ensures Valid() && Contents() == [] && length == 0
    {
      nodes, head, tail, length := [], None, None, 0;
      order := [];
    }

    /**
     * `append`: the new node becomes the tail; the old tail's `next` and the new node's `prev`
     * link the two, or the node becomes the head when the log was empty; `length` grows by one.
     */
    method Append(value: string)
      requires Valid()
      modifies this
      ensures Valid()
      ensures Contents() == old(Contents()) + [value]
      ensures length == old(length) + 1
      ensures tail == Some(|old(nodes)|) && nodes[|old(nodes)|].next == None
      ensures nodes[|old(nodes)|].prev == old(tail)
      ensures old(tail) == None ==> head == tail
      ensures old(tail) != None ==> head == old(head) && nodes[old(tail).value].next == tail
    {
      var n := |nodes|;
      nodes := nodes + [Node(value, None, None)];
      match tail {
        case None =>
          head := Some(n);
        case Some(old_) =>
          nodes := nodes[old_ := nodes[old_].(next := Some(n))];
          nodes := nodes[n := nodes[n].(prev := Some(old_))];
      }
      tail := Some(n);
      ChainAppend(old(nodes), order, old(head), old(tail), value, nodes, head);
      length := length + 1;
      order := order + [n];
    }

    /**
     * `pop`: takes the head and returns its value (`None` on an empty log). The next node
     * becomes the head with its `prev` cleared, or `tail` is cleared when the log becomes empty.
     */
    method Pop() returns (r: Option<string>)
      requires Valid()
      modifies this
      ensures Valid()
      ensures old(Contents()) == [] ==> r == None && Contents() == [] && length == 0
      ensures old(Contents()) != [] ==>
        && r == Some(old(Contents())[0])
        && Contents() == old(Contents())[1..]
        && length == old(length) - 1
      ensures Contents() == [] ==> head == None && tail == None
      ensures head != None ==> nodes[head.value].prev == None
    {
      match head {
        case None =>
          r := None;
        case Some(h) =>
          var next := nodes[h].next;
          assert next == if |order| == 1 then None else Some(order[1]);
          nodes := nodes[h := nodes[h].(next := None)];
          match next {
            case None =>
              tail := None;
              head := None;
            case Some(n) =>
              nodes := nodes[n := nodes[n].(prev := None)];
              head := Some(n);
          }
          ChainPop(old(nodes), order, old(head), old(tail), nodes, head, tail);
          length := length - 1;
          order := order[1..];
          r := Some(nodes[h].value);
      }
    }

    /** `iter`: an iterator positioned on the head. */
    method Iter() returns (it: ListIterator)
      requires Valid()
      ensures fresh(it) && it.log == this && it.Valid() && it.Remaining() == Contents()
    {
      it := new ListIterator(this, head, 0);
    }

    /** `back_iter`: an iterator positioned on the tail, for walking with `NextBack`. */
    method BackIter() returns (it: ListIterator)
      requires Valid()
      ensures fresh(it) && it.log == this && it.Valid() && it.RemainingBack() == Reverse(Contents())
    {
      it := new ListIterator(this, tail, |order| - 1);
    }

    /** `into_iter`: gives the log up to an iterator positioned on the head. */
    method IntoIter() returns (it: ListIterator)
      requires Valid()
      ensures fresh(it) && it.log == this && it.Valid() && it.Remaining() == Contents()
    {
      it := new ListIterator(this, head, 0);
    }
  }

  /**
   * `ListIterator`: a cursor on one node of a log. The ghost `pos` is the cursor's place in the
   * log's `order` (-1 or |order| once it has run off either end).
   */
  class ListIterator {
    const log: BetterTransactionLog
    var current: Option<nat>
    ghost var pos: int

    ghost predicate Valid()
      reads this, log
    {
      && log.Valid()
      && -1 <= pos <= |log.order|
      && current == (if 0 <= pos < |log.order| then Some(log.order[pos]) else None)
    }

    /** The values `Next` still yields, in order. */
    ghost function Remaining(): seq<string>
      reads this, log
      requires Valid()
    {
      if pos < 0 then [] else log.Contents()[pos..]
    }

    /** The values `NextBack` still yields, in order. */
    ghost function RemainingBack(): seq<string>
      reads this, log
      requires Valid()
    {
      if pos < 0 || pos >= |log.order| then [] else Reverse(log.Contents()[..pos + 1])
    }

    constructor (log: BetterTransactionLog, current: Option<nat>, ghost pos: int)
      requires log.Valid() && -1 <= pos <= |log.order|
      requires current == (if 0 <= pos < |log.order| then Some(log.order[pos]) else None)
      ensures this.log == log && Valid() && this.pos == pos
    {
      this.log := log;
      this.current := current;
      this.pos := pos;
    }

    /** `next`: yields the current value and moves along `next`. The log is not changed. */
    method Next() returns (r: Option<string>)
      requires Valid()
      modifies this
      ensures Valid()
      ensures old(Remaining()) == [] ==> r == None && Remaining() == []
      ensures old(Remaining()) != [] ==>
        r == Some(old(Remaining())[0]) && Remaining() == old(Remaining())[1..]
    {
      match current {
        case None =>
          r := None;
        case Some(c) =>
          r := Some(log.nodes[c].value);
          current := log.nodes[c].next;
          pos := pos + 1;
      }
    }

    /** `next_back`: yields the current value and moves along `prev`. The log is not changed. */
    method NextBack() returns (r: Option<string>)
      requires Valid()
      modifies this
      ensures Valid()
      ensures old(RemainingBack()) == [] ==> r == None && RemainingBack() == []
      ensures old(RemainingBack()) != [] ==>
        r == Some(old(RemainingBack())[0]) && RemainingBack() == old(RemainingBack())[1..]
    {
      match current {
        case None =>
          r := None;
        case Some(c) =>
          r := Some(log.nodes[c].value);
          current := log.nodes[c].prev;
          pos := pos - 1;
      }
    }
  }
}
