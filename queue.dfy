/** The FIFO `Queue` of lectures/week_12/code/queue.cpp, built on
    LinkedList.List: `push` is `push_front` and `pop` is `pop_back`. */
module Queues {
  import opened Seqs
  import opened LinkedList

  class Queue<T> {
    const mList: List<T>
    /** The queued values, oldest (next to pop) first. */
    ghost var Contents: seq<T>
    ghost var Repr: set<object>

    /** The list stores the values newest first. */
    ghost predicate Valid()
      reads this, Repr
    {
      && this in Repr
      && mList in Repr && mList.Repr <= Repr && this !in mList.Repr
      && mList.Valid()
      && Contents == Reversed(mList.Contents)
    }

    /** `Queue()`: an empty list. */
    constructor ()
      ensures Valid() && fresh(Repr) && Contents == []
    {
      mList := new List();
      Contents := [];
      new;
      Repr := {this} + mList.Repr;
    }

    /** `Queue(initializer_list)`: the list is built reversed, so the values
        leave in initializer order. */
    constructor FromList(elems: seq<T>)
      ensures Valid() && fresh(Repr) && Contents == elems
    {
      mList := new List.FromList(elems);
      Contents := elems;
      new;
      ReversedInvolution(elems);
      Repr := {this} + mList.Repr;
    }

    /** `push`: the value joins the back of the queue. */
    method Push(val: T)
      requires Valid()
      modifies Repr
      ensures Valid() && fresh(Repr - old(Repr))
      ensures Contents == old(Contents) + [val]
    {
      mList.PushFront(val);
      ReversedCons(val, old(mList.Contents));
      Contents := Contents + [val];
      Repr := Repr + mList.Repr;
    }

    /** `pop`: the oldest value leaves.  `pop_back` dereferences the head, so
        the queue must not be empty. */
    method Pop() returns (val: T)
      requires Valid() && Contents != []
      modifies Repr
      ensures Valid() && Repr <= old(Repr)
      ensures val == old(Contents[0]) && Contents == old(Contents[1..])
    {
      ReversedLength(mList.Contents);
      val := mList.PopBack();
      Contents := Contents[1..];
    }

    /** `empty`: the list is empty. */
    method Empty() returns (b: bool)
      requires Valid()
      ensures b <==> Contents == []
    {
      b := mList.Empty();
      ReversedLength(mList.Contents);
    }
  }

  /** main of queue.cpp: draining {1, 10, 100, 1000} pops the values in
      that order. */
  method QueueDemo() returns (popped: seq<int>)
    ensures popped == [1, 10, 100, 1000]
  {
    ghost var values := [1, 10, 100, 1000];
    var q := new Queue<int>.FromList([1, 10, 100, 1000]);
    popped := [];
    var empty := q.Empty();
    while !empty
      invariant q.Valid() && fresh(q.Repr)
      invariant |popped| <= |values|
      invariant popped == values[..|popped|] && q.Contents == values[|popped|..]
      invariant empty <==> q.Contents == []
      decreases |q.Contents|
    {
      var val := q.Pop();
      assert values[..|popped| + 1] == popped + [val];
      popped := popped + [val];
      empty := q.Empty();
    }
  }

  /** Pushing onto an empty queue and popping gives the value back and
      leaves the queue empty. */
  method PushPopDemo(v: int) returns (back: int, emptyAfter: bool)
    ensures back == v && emptyAfter
  {
    var q := new Queue<int>();
    q.Push(v);
    back := q.Pop();
    emptyAfter := q.Empty();
  }
}
