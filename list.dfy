/** The singly linked `List` of lectures/week_12/code/list.hpp. */
module LinkedList {
  import opened Seqs
  import opened Chain

  class List<T> {
    var head: Node?<T>
    /** The nodes of the chain from `head`, front first. */
    ghost var nodes: seq<Node<T>>
    /** The stored values, front first. */
    ghost var Contents: seq<T>
    ghost var Repr: set<object>

    ghost predicate Valid()
      reads this, Repr
    {
      && this in Repr
      && (forall k | 0 <= k < |nodes| :: nodes[k] in Repr)
      && IsChain(head, nodes, Contents)
    }

    /** `List()`: the head is null, so the list is empty. */
    constructor ()
      ensures Valid() && fresh(Repr) && Contents == []
    {
      head := null;
      nodes := [];
      Contents := [];
      Repr := {this};
    }

    /** `List(initializer_list)`: `push_front` of each element in turn, so the
        list holds the elements in reverse. */
    constructor FromList(elems: seq<T>)
      ensures Valid() && fresh(Repr) && Contents == Reversed(elems)
    {
      head := null;
      nodes := [];
      Contents := [];
      Repr := {this};
      new;
      for i := 0 to |elems|
        invariant Valid() && fresh(Repr)
        invariant Contents == Reversed(elems[..i])
      {
        assert elems[..i + 1][..i] == elems[..i];
        PushFront(elems[i]);
      }
      assert elems[..|elems|] == elems;
    }

    /** `push_front`: a new node holding `value` becomes the head. */
    method PushFront(value: T)
      requires Valid()
      modifies this
      ensures Valid() && fresh(Repr - old(Repr))
      ensures Contents == [value] + old(Contents)
    {
      var node := new Node(value);
      node.next := head;
      head := node;
      ChainPrepend(node, old(head), nodes, Contents);
      nodes := [node] + nodes;
      Contents := [value] + Contents;
      Repr := Repr + {node};
    }

    /** `pop_back`: a list of one node loses its head; otherwise walk to the
        last-but-one node and cut its `next`.  `mHead` is dereferenced, so
        the list must not be empty. */
    method PopBack() returns (value: T)
      requires Valid() && Contents != []
      modifies Repr
      ensures Valid() && Repr <= old(Repr)
      ensures value == old(Contents[|Contents| - 1])
      ensures Contents == old(Contents[..|Contents| - 1])
    {
      var it := head;
      assert |nodes| > 1 ==> it.next == nodes[1];
      if it.next == null {
        head := null;
        nodes := [];
        Contents := [];
        return it.data;
      }
      ghost var k := 0;
      while it.next != null && it.next.next != null
        invariant 0 <= k < |nodes| - 1 && it == nodes[k]
        invariant unchanged(Repr)
        decreases |nodes| - k
      {
        it := it.next;
        k := k + 1;
      }
      ChainOnlyLastEnds(head, nodes, Contents);
      assert it.next == nodes[k + 1];
      var back := it.next;
      it.next := null;
      nodes := nodes[..k + 1];
      Contents := Contents[..k + 1];
      return back.data;
    }

    /** `empty`: the head is null. */
    method Empty() returns (b: bool)
      requires Valid()
      ensures b <==> Contents == []
    {
      return head == null;
    }
  }

  /** A default list is empty; one built from [1, 2, 3] pops 1 first (it
      stores 3, 2, 1); a one-element list popped is empty again. */
  method ListDemo() returns (firstEmpty: bool, popped: int, lastEmpty: bool)
    ensures firstEmpty && popped == 1 && lastEmpty
  {
    var l := new List<int>();
    firstEmpty := l.Empty();
    var m := new List<int>.FromList([1, 2, 3]);
    assert [1, 2, 3][..2] == [1, 2] && [1, 2][..1] == [1] && [1][..0] == [];
    popped := m.PopBack();
    var one := new List<int>();
    one.PushFront(7);
    var seven := one.PopBack();
    lastEmpty := one.Empty();
  }
}
