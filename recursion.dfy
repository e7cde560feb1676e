/** The integer list of lectures/week_11/code/recursion.cpp, printed front
    to back by a loop and back to front by recursion.  The printed values
    are returned as a sequence, one element per output line. */
module Traversal {
  import opened Seqs
  import opened Chain

  class List {
    var head: Node?<int>
    /** The nodes of the chain from `head`, front first. */
    ghost var nodes: seq<Node<int>>
    /** The stored values, front first. */
    ghost var Contents: seq<int>
    ghost var Repr: set<object>

    ghost predicate Valid()
      reads this, Repr
    {
      && this in Repr
      && (forall k | 0 <= k < |nodes| :: nodes[k] in Repr)
      && IsChain(head, nodes, Contents)
    }

    /** A default `List`: `head` is null. */
    constructor ()
      ensures Valid() && fresh(Repr) && Contents == []
    {
      head := null;
      nodes := [];
      Contents := [];
      Repr := {this};
    }

    /** `insert`: on an empty list the new node becomes the head; otherwise
        it is linked in front of the head.  Both branches prepend. */
    method Insert(a: int)
      requires Valid()
      modifies this
      ensures Valid() && fresh(Repr - old(Repr))
      ensures Contents == [a] + old(Contents)
    {
      var newNode := new Node(a);
      if head == null {
        head := newNode;
      } else {
        newNode.next := head;
        head := newNode;
      }
      ChainPrepend(newNode, old(head), nodes, Contents);
      nodes := [newNode] + nodes;
      Contents := [a] + Contents;
      Repr := Repr + {newNode};
    }
  }

  /** `printForwards`: nothing for an empty list, otherwise each value from
      the head onwards. */
  method PrintForwards(l: List) returns (out: seq<int>)
    requires l.Valid()
    ensures out == l.Contents
    ensures l.Contents == [] ==> out == []
  {
    out := [];
    if l.head == null {
      return;
    }
    var it := l.head;
    ghost var k := 0;
    while it != null
      invariant 0 <= k <= |l.nodes|
      invariant if k < |l.nodes| then it == l.nodes[k] else it == null
      invariant out == l.Contents[..k]
      decreases |l.nodes| - k
    {
      assert l.Contents[..k + 1] == l.Contents[..k] + [it.data];
      out := out + [it.data];
      it := it.next;
      k := k + 1;
    }
  }

  /** `printRecurse`: the rest of the chain is printed first, then the data
      of `p`, so the chain comes out backwards. */
  method PrintRecurse(p: Node?<int>, ghost nodes: seq<Node<int>>, ghost contents: seq<int>)
    returns (out: seq<int>)
    requires IsChain(p, nodes, contents)
    ensures out == Reversed(contents)
    decreases |nodes|
  {
    if p == null {
      return [];
    }
    ChainTail(p, nodes, contents);
    out := PrintRecurse(p.next, nodes[1..], contents[1..]);
    out := out + [p.data];
    ReversedCons(contents[0], contents[1..]);
    assert [contents[0]] + contents[1..] == contents;
  }

  /** `printBackwards`: the recursion from the head. */
  method PrintBackwards(l: List) returns (out: seq<int>)
    requires l.Valid()
    ensures out == Reversed(l.Contents)
  {
    out := PrintRecurse(l.head, l.nodes, l.Contents);
  }

  /** The backward print is the forward print reversed, and printing forwards
      the backward print's order gives the forward order back. */
  lemma BackwardsIsReversedForwards(forwards: seq<int>, backwards: seq<int>)
    requires backwards == Reversed(forwards)
    ensures |backwards| == |forwards|
    ensures forall k | 0 <= k < |forwards| :: backwards[k] == forwards[|forwards| - 1 - k]
    ensures Reversed(backwards) == forwards
  {
    ReversedLength(forwards);
    forall k | 0 <= k < |forwards|
      ensures backwards[k] == forwards[|forwards| - 1 - k]
    {
      ReversedAt(forwards, k);
    }
    ReversedInvolution(forwards);
  }

  /** main of recursion.cpp: inserting 4, 3, 2, 1 prints 1 2 3 4 forwards
      and 4 3 2 1 backwards. */
  method TraversalDemo() returns (forwards: seq<int>, backwards: seq<int>)
    ensures forwards == [1, 2, 3, 4] && backwards == [4, 3, 2, 1]
  {
    var l := new List();
    l.Insert(4);
    l.Insert(3);
    l.Insert(2);
    l.Insert(1);
    forwards := PrintForwards(l);
    backwards := PrintBackwards(l);
    ReversedOneToFour();
  }

  lemma ReversedOneToFour()
    ensures Reversed([1, 2, 3, 4]) == [4, 3, 2, 1]
  {
    assert [4][..0] == [];
    assert Reversed([4]) == [4];
    ReversedCons(3, [4]);
    assert [3] + [4] == [3, 4];
    ReversedCons(2, [3, 4]);
    assert [2] + [3, 4] == [2, 3, 4];
    ReversedCons(1, [2, 3, 4]);
    assert [1] + [2, 3, 4] == [1, 2, 3, 4];
  }
}
