/** The singly linked node shared by the list classes of
    lectures/week_12/code/list.hpp, ice/code/ice11.cpp and
    lectures/week_11/code/recursion.cpp, and the ghost description of a
    null-terminated chain of such nodes.  The sources hold nodes through
    `std::shared_ptr`; memory management is not modelled. */
module Chain {
  import opened Seqs

  class Node<T> {
    var data: T
    var next: Node?<T>

    /** `Node(value)`: the data is set and `next` is null. */
    constructor (value: T)
      ensures data == value && next == null
    {
      data := value;
      next := null;
    }
  }

  /** Starting at `head`, following `next` visits exactly the distinct
      `nodes`, in order, ending in null, and they hold `contents`. */
  ghost predicate IsChain<T>(head: Node?<T>, nodes: seq<Node<T>>, contents: seq<T>)
    reads nodes
  {
    && |nodes| == |contents|
    && (if nodes == [] then head == null else head == nodes[0])
    && (forall k | 0 <= k < |nodes| :: nodes[k].data == contents[k])
    && (forall k | 0 <= k < |nodes| - 1 :: nodes[k].next == nodes[k + 1])
    && (nodes != [] ==> nodes[|nodes| - 1].next == null)
    && Distinct(nodes)
  }

  /** The rest of a chain after its first node is a chain. */
  lemma ChainTail<T>(head: Node?<T>, nodes: seq<Node<T>>, contents: seq<T>)
    requires IsChain(head, nodes, contents) && nodes != []
    ensures IsChain(head.next, nodes[1..], contents[1..])
  {
  }

  /** Only the last node of a chain has a null `next`. */
  lemma ChainOnlyLastEnds<T>(head: Node?<T>, nodes: seq<Node<T>>, contents: seq<T>)
    requires IsChain(head, nodes, contents)
    ensures forall j | 0 <= j < |nodes| - 1 :: nodes[j].next != null
  {
    forall j | 0 <= j < |nodes| - 1
      ensures nodes[j].next != null
    {
      assert nodes[j].next == nodes[j + 1];
    }
  }

  /** A chain whose node at index `i` (not the first) has been bypassed by
      its predecessor is the chain of the remaining nodes. */
  lemma ChainUnlinked<T>(head: Node?<T>, nodes: seq<Node<T>>, contents: seq<T>, i: nat)
    requires 1 <= i < |nodes| && |nodes| == |contents| && head == nodes[0]
    requires forall k | 0 <= k < |nodes| :: nodes[k].data == contents[k]
    requires forall k | 0 <= k < |nodes| - 1 && k != i - 1 :: nodes[k].next == nodes[k + 1]
    requires i < |nodes| - 1 ==> nodes[i - 1].next == nodes[i + 1]
    requires i == |nodes| - 1 ==> nodes[i - 1].next == null
    requires nodes[|nodes| - 1].next == null
    requires Distinct(nodes)
    ensures IsChain(head, nodes[..i] + nodes[i + 1..], contents[..i] + contents[i + 1..])
  {
    var r, c := nodes[..i] + nodes[i + 1..], contents[..i] + contents[i + 1..];
    forall a, b | 0 <= a < b < |r|
      ensures r[a] != r[b]
    {
      var a' := if a < i then a else a + 1;
      var b' := if b < i then b else b + 1;
      assert r[a] == nodes[a'] && r[b] == nodes[b'] && a' < b';
    }
    forall k | 0 <= k < |r|
      ensures r[k].data == c[k]
    {
      var k' := if k < i then k else k + 1;
      assert r[k] == nodes[k'] && c[k] == contents[k'];
    }
    forall k | 0 <= k < |r| - 1
      ensures r[k].next == r[k + 1]
    {
      if k < i - 1 {
        assert r[k] == nodes[k] && r[k + 1] == nodes[k + 1];
      } else if k == i - 1 {
        assert r[k] == nodes[i - 1] && r[k + 1] == nodes[i + 1];
      } else {
        assert r[k] == nodes[k + 1] && r[k + 1] == nodes[k + 2];
      }
    }
    if i < |nodes| - 1 {
      assert r[|r| - 1] == nodes[|nodes| - 1];
    } else {
      assert r[|r| - 1] == nodes[i - 1];
    }
  }

  /** A node not in a chain, pointing at its head, extends it at the front. */
  lemma ChainPrepend<T>(node: Node<T>, head: Node?<T>, nodes: seq<Node<T>>, contents: seq<T>)
    requires IsChain(head, nodes, contents) && node !in nodes && node.next == head
    ensures IsChain(node, [node] + nodes, [node.data] + contents)
  {
    var r := [node] + nodes;
    forall a, b | 0 <= a < b < |r|
      ensures r[a] != r[b]
    {
      assert r[b] == nodes[b - 1];
      if a > 0 {
        assert r[a] == nodes[a - 1];
      }
    }
  }
}
