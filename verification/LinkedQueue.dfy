/**
 The circular doubly linked queue: a head node whose links are null before the
 first element and point to itself after the last one is gone.
 */
module LinkedQueue {
  import opened Names

  class Node<T> {
    var prev: Node?<T>
    var next: Node?<T>
    var elem: Option<T>

    constructor (elem: Option<T>)
      ensures this.elem == elem && prev == null && next == null
    {
      this.elem, prev, next := elem, null, null;
    }
  }

  class Queue<T> {
    const head: Node<T>
    var num: int
    ghost var nodes: seq<Node<T>>
    ghost var contents: seq<T>
    ghost var repr: set<object>

    /** The nodes form a ring through the head, in the order of the contents. */
    ghost predicate Linked()
      reads this, repr
    {
      && |nodes| == |contents|
      && head in repr
      && (forall i | 0 <= i < |nodes| :: nodes[i] in repr && nodes[i] != head && nodes[i].elem == Some(contents[i]))
      && (forall i, j | 0 <= i < j < |nodes| :: nodes[i] != nodes[j])
      && (forall i {:trigger nodes[i].next} | 0 <= i < |nodes| - 1 :: nodes[i].next == nodes[i + 1])
      && (forall i {:trigger nodes[i].prev} | 1 <= i < |nodes| :: nodes[i].prev == nodes[i - 1])
      && (nodes != [] ==> head.next == nodes[0] && nodes[0].prev == head)
      && (nodes != [] ==> head.prev == nodes[|nodes| - 1] && nodes[|nodes| - 1].next == head)
      && (nodes == [] ==> head.next == head.prev && (head.next == null || head.next == head))
    }

    ghost predicate Valid()
      reads this, repr
    {
      this in repr && Counted() && Linked()
    }

    /** istgt_queue_init */
    constructor ()
      ensures Valid() && contents == [] && fresh(repr)
    {
      head := new Node(None);
      num, nodes, contents := 0, [], [];
      repr := {this, head};
    }

    /** The counter is the length; Destroy can leave it otherwise. */
    ghost predicate Counted()
      reads this
    {
      num == |contents|
    }

    /** istgt_queue_count: the length of the queue, exactly as long as the counter is kept. */
    method Count() returns (n: int)
      ensures n == |contents| <==> Counted()
      ensures Valid() ==> n == |contents|
    {
      n := num;
    }

    /** istgt_queue_enqueue */
    method Enqueue(elem: T)
      requires Valid()
      modifies repr
      ensures Valid() && contents == old(contents) + [elem]
      ensures fresh(repr - old(repr))
    {
      var qp := new Node(Some(elem));
      var tail := head.prev;
      if tail == null {
        LinkOnly(qp, elem);
      } else {
        LinkLast(qp, elem, tail);
      }
      num := num + 1;
    }

    /** The first element of a queue whose links are null, or lead to the head from either side. */
    method LinkOnly(qp: Node<T>, elem: T)
      requires Linked() && contents == [] && qp !in repr && (qp as object) != this && qp.elem == Some(elem)
      modifies this`nodes, this`contents, this`repr, head, qp
      ensures Linked() && nodes == [qp] && contents == [elem] && repr == old(repr) + {qp}
    {
      head.next := qp;
      head.prev := qp;
      qp.next := head;
      qp.prev := head;
      nodes, contents, repr := [qp], [elem], repr + {qp};
    }

    /** Behind the last node, which is the head itself when the queue has been emptied. */
    method LinkLast(qp: Node<T>, elem: T, tail: Node<T>)
      requires Linked() && tail == head.prev && qp !in repr && (qp as object) != this && qp.elem == Some(elem)
      modifies this`nodes, this`contents, this`repr, head, tail, qp
      ensures Linked() && contents == old(contents) + [elem] && repr == old(repr) + {qp}
    {
      tail.next := qp;
      head.prev := qp;
      qp.next := head;
      qp.prev := tail;
      nodes, contents, repr := nodes + [qp], contents + [elem], repr + {qp};
    }

    /** In front of the first node. */
    method LinkFirst(qp: Node<T>, elem: T, first: Node<T>)
      requires Linked() && contents != [] && first == head.next
      requires qp !in repr && (qp as object) != this && qp.elem == Some(elem)
      modifies this`nodes, this`contents, this`repr, head, first, qp
      ensures Linked() && contents == [elem] + old(contents) && repr == old(repr) + {qp}
    {
      head.next := qp;
      first.prev := qp;
      qp.next := first;
      qp.prev := head;
      nodes, contents, repr := [qp] + nodes, [elem] + contents, repr + {qp};
    }

    /** istgt_queue_enqueue_first */
    method EnqueueFirst(elem: T)
      requires Valid()
      modifies repr
      ensures Valid() && contents == [elem] + old(contents)
      ensures fresh(repr - old(repr))
    {
      var qp := new Node(Some(elem));
      var first := head.next;
      if first == null || first == head {
        LinkOnly(qp, elem);
      } else {
        LinkFirst(qp, elem, first);
      }
      num := num + 1;
    }

    /** istgt_queue_dequeue: nothing when the queue is empty. */
    method Dequeue() returns (elem: Option<T>)
      requires Valid()
      modifies repr
      ensures Valid()
      ensures old(contents) == [] ==> elem == None && contents == []
      ensures old(contents) != [] ==> elem == Some(old(contents)[0]) && contents == old(contents)[1..]
      ensures repr <= old(repr)
    {
      var first := head.next;
      if first == null || first == head {
        return None;
      }
      elem := first.elem;
      var next := first.next;
      if next == null {
        // the source resets both links here; no node of a ring leads to null
        assert false;
      } else {
        head.next := next;
        next.prev := head;
      }
      num := num - 1;
      nodes, contents := nodes[1..], contents[1..];
    }

    /**
     istgt_queue_destroy: the nodes go and the links are null, but the counter
     stays: the queue counts right again exactly if it was empty.
     */
    method Destroy()
      requires Valid()
      modifies repr
      ensures Linked() && contents == [] && num == old(num)
      ensures Valid() <==> old(contents) == []
    {
      ghost var i := 0;
      var qp := head.next;
      while qp != null && qp != head
        invariant 0 <= i <= |nodes| && Linked() && unchanged(repr)
        invariant i < |nodes| ==> qp == nodes[i]
        invariant i == |nodes| ==> qp == null || qp == head
        decreases |nodes| - i
      {
        qp := qp.next;
        i := i + 1;
      }
      head.next := null;
      head.prev := null;
      nodes, contents := [], [];
    }
  }
}
