/**
 * `queue_t` / `elem_t` of ass2-q.c: a singly linked FIFO with `first`,
 * `last` and a length. The ghost `Spine` lists the element cells in order
 * and `Contents` their data. The `prev` back-pointers are not modelled.
 */
module FifoQueue {
  import opened Wrappers

  /** `elem_t`: one cell of the queue. */
  class Elem<T> {
    var data: T
    var next: Elem?<T>

    constructor (data: T)
      ensures this.data == data && next == null
    {
      this.data := data;
      next := null;
    }
  }

  class Queue<T> {
    var first: Elem?<T>
    var last: Elem?<T>
    var len: nat
    ghost var Contents: seq<T>
    ghost var Spine: seq<Elem<T>>
    ghost var Repr: set<object>

    /**
     * The object invariant: the cells from `first` along `next` are exactly
     * `Spine`, ending at `last`, and `first` and `last` are both NULL exactly
     * when the length is 0.
     */
    ghost predicate Valid()
      reads this, Repr
    {
      this in Repr &&
      |Spine| == |Contents| == len &&
      (forall k :: 0 <= k < len ==> Spine[k] in Repr && Spine[k].data == Contents[k]) &&
      (forall k :: 0 <= k < len - 1 ==> Spine[k].next == Spine[k + 1]) &&
      (forall j, k :: 0 <= j < k < len ==> Spine[j] != Spine[k]) &&
      (len == 0 <==> first == null) &&
      (len == 0 <==> last == null) &&
      (len > 0 ==> first == Spine[0] && last == Spine[len - 1] && last.next == null)
    }

    /** `new_queue`: an empty queue. */
    constructor ()
      ensures Valid() && fresh(Repr)
      ensures Contents == []
    {
      first, last := null, null;
      len := 0;
      Contents, Spine := [], [];
      Repr := {this};
    }

    /** `enqueue`: the data is linked in after `last`. */
    method Enqueue(data: T)
      requires Valid()
      modifies Repr
      ensures Valid() && fresh(Repr - old(Repr))
      ensures Contents == old(Contents) + [data]
      ensures len == old(len) + 1
    {
      var cell := new Elem(data);
      if len == 0 {
        first := cell;
      } else {
        last.next := cell;
      }
      len := len + 1;
      last := cell;
      Contents := Contents + [data];
      Spine := Spine + [cell];
      Repr := Repr + {cell};
    }

    /** `dequeue`: NULL on an empty queue; otherwise the head's data, with the rest left queued. */
    method Dequeue() returns (r: Option<T>)
      requires Valid()
      modifies this
      ensures Valid() && Repr == old(Repr)
      ensures old(len) == 0 ==> r == None && Contents == old(Contents) && len == 0
      ensures old(len) > 0 ==> r == Some(old(Contents)[0]) && Contents == old(Contents)[1..] &&
                               len == old(len) - 1
    {
      if len == 0 {
        return None;
      }
      assert first == Spine[0];
      assert len == 1 ==> first.next == null;
      assert len > 1 ==> first.next == Spine[1];
      len := len - 1;
      if len == 0 {
        last := null;
      }
      var cell := first;
      var data := cell.data;
      first := cell.next;
      Contents := Contents[1..];
      Spine := Spine[1..];
      r := Some(data);
    }

    /** `clear_queue`: the cells are released and the queue is empty. */
    method Clear()
      requires Valid()
      modifies this
      ensures Valid() && Contents == [] && first == null && last == null
    {
      first, last := null, null;
      len := 0;
      Contents, Spine := [], [];
    }
  }

  /**
   * What a caller of Enqueue and Dequeue sees: every item enqueued into an
   * empty queue comes back out of it, in the order it went in.
   */
  method FillThenDrain<T>(xs: seq<T>) returns (ys: seq<T>)
    ensures ys == xs
  {
    var q := new Queue<T>();
    var i := 0;
    while i < |xs|
      invariant 0 <= i <= |xs|
      invariant q.Valid() && fresh(q.Repr)
      invariant q.Contents == xs[..i]
    {
      q.Enqueue(xs[i]);
      i := i + 1;
    }
    ys := [];
    var r := q.Dequeue();
    while r.Some?
      invariant q.Valid() && fresh(q.Repr)
      invariant r.Some? ==> xs == ys + [r.value] + q.Contents
      invariant r.None? ==> xs == ys && q.Contents == []
      decreases |q.Contents| + (if r.Some? then 1 else 0)
    {
      ys := ys + [r.value];
      r := q.Dequeue();
    }
  }
}
