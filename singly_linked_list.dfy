/**
 * The singly linked transaction log of ch04_list/src/singly_linked_list.rs: a FIFO queue of
 * strings with a `head`, a `tail` and a `length`.
 *
 * The `Rc<RefCell<Node>>` links become indices into an arena of nodes (`nodes`); a node that
 * has been popped stays in the arena, unreachable. The ghost sequence `order` lists the
 * indices of the live nodes from head to tail.
 */
module SinglyLinkedList {
  import opened Wrappers

  datatype Node = Node(value: string, next: Option<nat>)

  /** The values of the nodes at `order`, in that order. */
  function Values(nodes: seq<Node>, order: seq<nat>): seq<string>
    requires forall k :: 0 <= k < |order| ==> order[k] < |nodes|
  {
    seq(|order|, k requires 0 <= k < |order| => nodes[order[k]].value)
  }

  class TransactionLog {
    var nodes: seq<Node>
    var head: Option<nat>
    var tail: Option<nat>
    var length: nat
    ghost var order: seq<nat>

    ghost predicate Valid()
      reads this
    {
      && |order| == length
      && (forall k :: 0 <= k < |order| ==> order[k] < |nodes|)
      && (forall k, m :: 0 <= k < m < |order| ==> order[k] < order[m])
      && head == (if order == [] then None else Some(order[0]))
      && tail == (if order == [] then None else Some(order[|order| - 1]))
      && (forall k :: 0 <= k < |order| - 1 ==> nodes[order[k]].next == Some(order[k + 1]))
      && (order != [] ==> nodes[order[|order| - 1]].next == None)
    }

    /** The queued values, oldest first. */
    ghost function Contents(): seq<string>
      reads this
      requires Valid()
    {
      Values(nodes, order)
    }

    /** `length`: the number of queued values. */
    function Length(): (n: nat)
      reads this
      requires Valid()
      ensures n == |Contents()|
    {
      length
    }

    /** `new_empty`: no head, no tail, length 0. */
    constructor NewEmpty()
      ensures Valid() && Contents() == [] && length == 0
    {
      nodes, head, tail, length := [], None, None, 0;
      order := [];
    }

    /**
     * `append`: the new node is linked after the old tail, or becomes the head when the log is
     * empty; it is the new tail and `length` grows by one.
     */
    method Append(value: string)
      requires Valid()
      modifies this
      ensures Valid()
      ensures Contents() == old(Contents()) + [value]
      ensures length == old(length) + 1
      ensures tail == Some(|old(nodes)|) && nodes[|old(nodes)|] == Node(value, None)
      ensures old(head) == None ==> head == tail
      ensures old(head) != None ==> head == old(head)
    {
      var n := |nodes|;
      nodes := nodes + [Node(value, None)];
      match tail {
        case Some(last) =>
          nodes := nodes[last := nodes[last].(next := Some(n))];
        case None =>
          head := Some(n);
      }
      tail := Some(n);
      length := length + 1;
      order := order + [n];
    }

    /**
     * `pop`: takes the head; the next node becomes the head, or `tail` is cleared when the log
     * becomes empty. Returns the oldest value, or `None` on an empty log.
     */
    method Pop() returns (r: Option<string>)
      requires Valid()
      modifies this
      ensures Valid()
      ensures old(Contents()) == [] ==> r == None && Contents() == [] && length == 0
      ensures old(Contents()) != [] ==>
        && r == Some(old(Contents())[0])
        && Contents() == old(Contents())[1..]
        && length == old(length) - 1
      ensures Contents() == [] ==> head == None && tail == None
    {
      match head {
        case None =>
          r := None;
        case Some(h) =>
          var next := nodes[h].next;
          nodes := nodes[h := nodes[h].(next := None)];
          match next {
            case Some(n) =>
              head := Some(n);
            case None =>
              tail := None;
              head := None;
          }
          length := length - 1;
          order := order[1..];
          r := Some(nodes[h].value);
      }
    }
  }

  /** The scenario of ch04_list/src/lib.rs: three appends, three pops, then a fresh start. */
  method TransactionLogScenario()
  {
    var log := new TransactionLog.NewEmpty();
    var r := log.Pop();
    assert r == None;
    log.Append("a");
    log.Append("b");
    log.Append("a");
    assert log.length == 3;
    r := log.Pop();
    assert r == Some("a");
    r := log.Pop();
    assert r == Some("b");
    r := log.Pop();
    assert r == Some("a");
    r := log.Pop();
    assert r == None;
    log.Append("c");
    r := log.Pop();
    assert r == Some("c");
  }
}
