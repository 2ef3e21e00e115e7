/**
 * A node of the snake's doubly-linked body (src/classes/DLNode.ts).
 * `prev` points toward the tail and `next` toward the head; the three
 * operations rewire those two fields in place.
 */
module DLNodes {

  class DLNode<T> {
    const value: T
    var prev: DLNode?<T>
    var next: DLNode?<T>

    /** A detached node: both links are unset. */
    constructor (value: T)
      ensures this.value == value && prev == null && next == null
    {
      this.value := value;
      prev := null;
      next := null;
    }

    /**
     * `link(next, prev)`: makes `next.prev` point at `prev` and `prev.next`
     * at `next`, skipping whichever argument is null; no other field changes.
     */
    static method Link(next: DLNode?<T>, prev: DLNode?<T>)
      modifies next, prev
      ensures next != null ==> next.prev == prev
      ensures prev != null ==> prev.next == next
      ensures next != null && next != prev ==> next.next == old(next.next)
      ensures prev != null && prev != next ==> prev.prev == old(prev.prev)
    {
      if next != null {
        next.prev := prev;
      }
      if prev != null {
        prev.next := next;
      }
    }

    /**
     * `append(node, isNext)`: links `node` in front of this node (toward the
     * head) when `isNext`, behind it (toward the tail) otherwise, and returns
     * `node`; the two links on the far side are untouched.
     */
    method Append(node: DLNode<T>, isNext: bool) returns (r: DLNode<T>)
      modifies this, node
      ensures r == node
      ensures isNext ==> node.prev == this && next == node
      ensures isNext && node != this ==> node.next == old(node.next) && prev == old(prev)
      ensures !isNext ==> prev == node && node.next == this
      ensures !isNext && node != this ==> next == old(next) && node.prev == old(node.prev)
    {
      if isNext {
        Link(node, this);
      } else {
        Link(this, node);
      }
      r := node;
    }

    /**
     * `delete()`: splices this node out; its former neighbours become linked
     * to each other (a missing neighbour leaves the other's link null) and the
     * node ends with both links null.
     */
    method Delete()
      modifies this, next, prev
      ensures prev == null && next == null
      ensures old(next) != null && old(next) != this ==> old(next).prev == old(prev)
      ensures old(prev) != null && old(prev) != this ==> old(prev).next == old(next)
      ensures old(next) != null && old(next) != this && old(next) != old(prev) ==> old(next).next == old(next.next)
      ensures old(prev) != null && old(prev) != this && old(prev) != old(next) ==> old(prev).prev == old(prev.prev)
    {
      Link(next, prev);
      next := null;
      prev := null;
    }
  }
}
