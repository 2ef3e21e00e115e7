/**
 * The snake's body as a doubly-linked list (src/classes/DLList.ts). A list
 * value is a head node plus the head-to-tail snapshot `nodes` (the source's
 * `array`) taken when the list was built; its operations rewire the shared nodes and build a new list.
 */
module DLLists {
  import opened Wrappers
  import opened DLNodes

  datatype ListError = HeadIsOnlyNode | TailIsOnlyNode

  /** `nodes` is what following `prev` from `nodes[0]` visits, up to a node whose `prev` is null. */
  ghost predicate PrevChain<T>(nodes: seq<DLNode<T>>)
    reads set k | 0 <= k < |nodes| :: nodes[k]
  {
    && |nodes| > 0
    && (forall i :: 0 <= i < |nodes| - 1 ==> nodes[i].prev == nodes[i + 1])
    && nodes[|nodes| - 1].prev == null
  }

  /**
   * A well-formed list in head-to-tail order: consecutive nodes are linked
   * both ways, nothing lies beyond the tail, no node repeats. The head's
   * `next` is not constrained: after an append whose result was dropped it
   * still points at the node that was put in front.
   */
  ghost predicate Chained<T>(nodes: seq<DLNode<T>>)
    reads set k | 0 <= k < |nodes| :: nodes[k]
  {
    && PrevChain(nodes)
    && (forall i :: 0 <= i < |nodes| - 1 ==> nodes[i + 1].next == nodes[i])
    && (forall i, j :: 0 <= i < j < |nodes| ==> nodes[i] != nodes[j])
  }

  /** A stand-alone list: a chain with nothing in front of its head. */
  ghost predicate Linked<T>(nodes: seq<DLNode<T>>)
    reads set k | 0 <= k < |nodes| :: nodes[k]
  {
    Chained(nodes) && nodes[0].next == null
  }

  class DLList<T> {
    const head: DLNode<T>
    const nodes: seq<DLNode<T>>
    const tail: DLNode<T>

    /** `nodes` is the chain from `head` to `tail`. */
    ghost predicate Chain()
      reads set k | 0 <= k < |nodes| :: nodes[k]
    {
      Chained(nodes) && nodes[0] == head && tail == nodes[|nodes| - 1]
    }

    /** A chain whose head has nothing in front of it. */
    ghost predicate Valid()
      reads set k | 0 <= k < |nodes| :: nodes[k]
    {
      Chain() && head.next == null
    }

    /** The values held by the list, head first. */
    function Values(): (vs: seq<T>)
      ensures |vs| == |nodes|
      ensures forall i :: 0 <= i < |nodes| ==> vs[i] == nodes[i].value
    {
      seq(|nodes|, i requires 0 <= i < |nodes| => nodes[i].value)
    }

    /**
     * The source's constructor: walks `prev` from `head`, collecting the nodes
     * into `nodes`, and takes the last one as `tail`. The walk terminates
     * because `chain` witnesses a finite `prev` chain from `head`.
     */
    constructor (head: DLNode<T>, ghost chain: seq<DLNode<T>>)
      requires PrevChain(chain) && chain[0] == head
      ensures this.head == head && nodes == chain && tail == chain[|chain| - 1]
    {
      var walked := [head];
      var node := head;
      ghost var i := 0;
      while node.prev != null
        invariant 0 <= i < |chain| && node == chain[i] && walked == chain[..i + 1]
        invariant PrevChain(chain)
        invariant i < |chain| - 1 ==> node.prev == chain[i + 1]
        decreases |chain| - i
      {
        node := node.prev;
        i := i + 1;
        walked := walked + [node];
      }
      assert walked == chain;
      this.head := head;
      nodes := walked;
      tail := walked[|walked| - 1];
    }

    /**
     * `appendToHead(node)`: the detached `node` becomes the new head; the old
     * head's `next` is overwritten to point at it, whatever it pointed at, and
     * this list stays a chain.
     */
    method AppendToHead(node: DLNode<T>) returns (l: DLList<T>)
      requires Chain()
      requires node !in nodes && node.prev == null && node.next == null
      modifies head, node
      ensures fresh(l) && l.Valid()
      ensures l.head == node && l.tail == tail && l.nodes == [node] + nodes
      ensures l.Values() == [node.value] + Values()
      ensures head.next == node && node.prev == head
      ensures Chain()
    {
      var h := head.Append(node, true);
      l := new DLList(h, [node] + nodes);
    }

    /** `appendToTail(node)`: the detached `node` becomes the new tail, behind the old one; the head's `next` is untouched. */
    method AppendToTail(node: DLNode<T>) returns (l: DLList<T>)
      requires Chain()
      requires node !in nodes && node.prev == null && node.next == null
      modifies tail, node
      ensures fresh(l) && l.Chain() && l.head.next == old(head.next)
      ensures l.head == head && l.tail == node && l.nodes == nodes + [node]
      ensures l.Values() == Values() + [node.value]
      ensures tail.prev == node && node.next == tail
    {
      var _ := tail.Append(node, false);
      l := new DLList(head, nodes + [node]);
    }

    /**
     * `deleteTail()`: fails on a one-node list; otherwise unlinks the tail
     * node completely and returns the list without it, with the same head.
     */
    method DeleteTail() returns (r: Result<DLList<T>, ListError>)
      requires Valid()
      modifies tail, tail.next
      ensures r.Err? <==> |nodes| == 1
      ensures r.Err? ==> r.error == TailIsOnlyNode && unchanged(tail)
      ensures r.Ok? ==> fresh(r.value) && r.value.Valid()
      ensures r.Ok? ==> r.value.head == head && r.value.nodes == nodes[..|nodes| - 1]
      ensures r.Ok? ==> r.value.Values() == Values()[..|nodes| - 1]
      ensures r.Ok? ==> tail.prev == null && tail.next == null
    {
      assert |nodes| > 1 ==> tail.next == nodes[|nodes| - 2];
      if tail.next == null {
        return Err(TailIsOnlyNode);
      }
      tail.Delete();
      var l := new DLList(head, nodes[..|nodes| - 1]);
      r := Ok(l);
    }

    /**
     * `deleteHead()` as written: fails on a one-node list; otherwise unlinks
     * the head, but then builds the result from that same unlinked node, so
     * the returned list holds only the removed head. The rest of the list is
     * left behind as a stand-alone list that nothing returns.
     */
    method DeleteHead() returns (r: Result<DLList<T>, ListError>)
      requires Valid()
      modifies head, head.prev
      ensures r.Err? <==> |nodes| == 1
      ensures r.Err? ==> r.error == HeadIsOnlyNode && unchanged(head)
      ensures r.Ok? ==> fresh(r.value) && r.value.Valid()
      ensures r.Ok? ==> r.value.nodes == [head] && r.value.Values() == [head.value]
      ensures r.Ok? ==> head.prev == null && head.next == null && Linked(nodes[1..])
    {
      assert |nodes| > 1 ==> head.prev == nodes[1];
      if head.prev == null {
        return Err(HeadIsOnlyNode);
      }
      var newHead := head.prev;
      head.Delete();
      var l := new DLList(head, [head]);
      r := Ok(l);
    }

    /** `deleteHead()` as evidently intended: the result is built from `newHead`, the old second node. */
    method DeleteHeadCorrected() returns (r: Result<DLList<T>, ListError>)
      requires Valid()
      modifies head, head.prev
      ensures r.Err? <==> |nodes| == 1
      ensures r.Err? ==> r.error == HeadIsOnlyNode && unchanged(head)
      ensures r.Ok? ==> fresh(r.value) && r.value.Valid()
      ensures r.Ok? ==> r.value.nodes == nodes[1..] && r.value.tail == tail
      ensures r.Ok? ==> r.value.Values() == Values()[1..]
      ensures r.Ok? ==> head.prev == null && head.next == null
    {
      assert |nodes| > 1 ==> head.prev == nodes[1];
      if head.prev == null {
        return Err(HeadIsOnlyNode);
      }
      var newHead := head.prev;
      head.Delete();
      var l := new DLList(newHead, nodes[1..]);
      r := Ok(l);
    }
  }

  /**
   * On the list [1, 2], `deleteHead` as written returns [1], the value it was
   * meant to remove, where [2] was intended.
   */
  method DeleteHeadCounterexample() returns (got: seq<int>, intended: seq<int>)
    ensures got == [1] && intended == [2]
  {
    var first := new DLNode(1);
    var single := new DLList(first, [first]);
    var second := new DLNode(2);
    var two := single.AppendToTail(second);
    intended := two.Values()[1..];
    var r := two.DeleteHead();
    got := r.value.Values();
  }

  /** `new DLList(new DLNode(v))`: a one-node list, as `getInitialSnake()` builds. */
  method Single<T>(v: T) returns (l: DLList<T>)
    ensures fresh(l) && fresh(l.head) && l.Valid()
    ensures l.nodes == [l.head] && l.Values() == [v]
  {
    var node := new DLNode(v);
    l := new DLList(node, [node]);
  }

  /**
   * Appending to the same list twice, as the game does when a move that
   * grew the snake is dropped because the board was full: the second append
   * overwrites the head's `next` and yields the second node followed by the
   * body, while the head no longer leads to the dropped node.
   */
  method StaleHeadAppend() returns (dropped: seq<int>, kept: seq<int>, relinked: bool)
    ensures dropped == [2, 1] && kept == [3, 1] && relinked
  {
    var body := Single(1);
    var first := body.head;
    var second := new DLNode(2);
    var grown := body.AppendToHead(second);
    dropped := grown.Values();
    assert dropped == [2, 1];
    var third := new DLNode(3);
    var regrown := body.AppendToHead(third);
    kept := regrown.Values();
    assert kept == [3, 1];
    relinked := first.next == third && first.next != second;
  }
}
