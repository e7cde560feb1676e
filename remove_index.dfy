/** The exercise list of ice/code/ice11.cpp: a node chain with a public
    `head`, `push_front`, and the free function `removeIndex`. */
module IndexRemoval {
  import opened Seqs
  import opened Chain

  class List<T> {
    var head: Node?<T>
    /** The nodes of the chain from `head`, front first. */
    ghost var nodes: seq<Node<T>>
    /** The stored values, front first. */
    ghost var Contents: seq<T>
    ghost var Repr: set<object>

    ghost predicate Valid()
      reads this, Repr
    {
      && this in Repr
      && (forall k | 0 <= k < |nodes| :: nodes[k] in Repr)
      && IsChain(head, nodes, Contents)
    }

    /** `List()`: the head is null. */
    constructor ()
      ensures Valid() && fresh(Repr) && Contents == []
    {
      head := null;
      nodes := [];
      Contents := [];
      Repr := {this};
    }

    /** `push_front`: a new node holding `value` becomes the head; the old
        chain follows it unchanged. */
    method PushFront(value: T)
      requires Valid()
      modifies this
      ensures Valid() && fresh(Repr - old(Repr))
      ensures Contents == [value] + old(Contents)
    {
      var node := new Node(value);
      node.next := head;
      head := node;
      ChainPrepend(node, old(head), nodes, Contents);
      nodes := [node] + nodes;
      Contents := [value] + Contents;
      Repr := Repr + {node};
    }
  }

  /** Walks `it` to the node at index `i - 1`, the predecessor of the target,
      stopping early at the last node.  `i` is a `std::size_t`: `i == 0`
      makes `i - 1` wrap to the largest value, so the walk reaches the last
      node, and `i >= |Contents|` also stops there; in both cases (and on an
      empty list) a null pointer is dereferenced.  Hence 1 <= i < |Contents|.
      Returns the node at `index` after the walk, and its index. */
  method WalkTo<T>(i: nat, list: List<T>) returns (it: Node<T>, index: nat)
    requires list.Valid() && 1 <= i < |list.Contents|
    ensures index == i - 1 && it == list.nodes[index]
  {
    it := list.head;
    index := 0;
    ChainOnlyLastEnds(list.head, list.nodes, list.Contents);
    while it.next != null && index < i - 1
      invariant 0 <= index <= i - 1 && it == list.nodes[index]
      decreases i - 1 - index
    {
      it := it.next;
      index := index + 1;
    }
  }

  /** `removeIndex(i, list)`: unlinks the node at index `i` and returns the
      data of its predecessor (index `i - 1`), not the value removed. */
  method RemoveIndex<T>(i: nat, list: List<T>) returns (val: T)
    requires list.Valid() && 1 <= i < |list.Contents|
    modifies list.Repr
    ensures list.Valid() && list.Repr == old(list.Repr)
    ensures val == old(list.Contents[i - 1])
    ensures list.Contents == old(list.Contents[..i] + list.Contents[i + 1..])
  {
    var it, _ := WalkTo(i, list);
    assert it.next == list.nodes[i];
    var pop := it.next;
    it.next := pop.next;
    ChainUnlinked(list.head, list.nodes, list.Contents, i);
    list.nodes := list.nodes[..i] + list.nodes[i + 1..];
    list.Contents := list.Contents[..i] + list.Contents[i + 1..];
    return it.data;
  }

  /** `removeIndex` as its name promises: the same unlinking, returning the
      removed node's data. */
  method RemoveAt<T>(i: nat, list: List<T>) returns (val: T)
    requires list.Valid() && 1 <= i < |list.Contents|
    modifies list.Repr
    ensures list.Valid() && list.Repr == old(list.Repr)
    ensures val == old(list.Contents[i])
    ensures list.Contents == old(list.Contents[..i] + list.Contents[i + 1..])
  {
    var it, _ := WalkTo(i, list);
    assert it.next == list.nodes[i];
    var pop := it.next;
    it.next := pop.next;
    ChainUnlinked(list.head, list.nodes, list.Contents, i);
    list.nodes := list.nodes[..i] + list.nodes[i + 1..];
    list.Contents := list.Contents[..i] + list.Contents[i + 1..];
    return pop.data;
  }

  /** `printList`: the data from `head` to the end of the chain. */
  method PrintList<T>(list: List<T>) returns (out: seq<T>)
    requires list.Valid()
    ensures out == list.Contents
  {
    out := [];
    var it := list.head;
    ghost var k := 0;
    while it != null
      invariant 0 <= k <= |list.nodes|
      invariant if k < |list.nodes| then it == list.nodes[k] else it == null
      invariant out == list.Contents[..k]
      decreases |list.nodes| - k
    {
      assert list.Contents[..k + 1] == list.Contents[..k] + [it.data];
      out := out + [it.data];
      it := it.next;
      k := k + 1;
    }
  }

  /** main of ice11.cpp: the list 1 2 3 loses its 2, and `removeIndex`
      hands back 1, the value before the removed one. */
  method RemoveIndexDemo() returns (val: int, rest: seq<int>)
    ensures rest == [1, 3] && val == 1
  {
    var list := new List<int>();
    list.PushFront(3);
    list.PushFront(2);
    list.PushFront(1);
    assert list.Contents == [1, 2, 3];
    val := RemoveIndex(1, list);
    rest := PrintList(list);
  }

  /** The same list through `RemoveAt` yields the removed 2. */
  method RemoveAtDemo() returns (val: int, rest: seq<int>)
    ensures rest == [1, 3] && val == 2
  {
    var list := new List<int>();
    list.PushFront(3);
    list.PushFront(2);
    list.PushFront(1);
    val := RemoveAt(1, list);
    rest := PrintList(list);
  }
}
