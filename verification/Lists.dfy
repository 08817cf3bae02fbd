/** The doubly linked list of list.cpp, which refines a sequence of its values. */
module Lists {
  class Node<T(!new)> {
    var next: Node?<T>
    var prev: Node?<T>
    var value: T

    constructor (value: T)
      ensures this.value == value && next == null && prev == null
    {
      this.value, next, prev := value, null, null;
    }
  }

  /** The node at a position, or null outside. */
  ghost function NodeAt<T(!new)>(s: seq<Node<T>>, i: int): (n: Node?<T>) {
    if 0 <= i < |s| then s[i] else null
  }

  ghost predicate Distinct<T(!new)>(s: seq<Node<T>>) {
    forall i, j | 0 <= i < j < |s| :: s[i] != s[j]
  }

  class LinkedList<T(!new)> {
    var head: Node?<T>
    var tail: Node?<T>
    var length: nat
    ghost var nodes: seq<Node<T>>
    // What the list holds, from head to tail.
    ghost var values: seq<T>

    ghost predicate Valid()
      reads this, nodes
    {
      && length == |nodes| == |values|
      && head == NodeAt(nodes, 0) && tail == NodeAt(nodes, |nodes| - 1) && Distinct(nodes)
      && forall i | 0 <= i < |nodes| :: LinkedAt(nodes, i, values[i])
    }

    static ghost predicate LinkedAt(s: seq<Node<T>>, i: nat, v: T)
      requires i < |s|
      reads s[i]
    {
      s[i].next == NodeAt(s, i + 1) && s[i].prev == NodeAt(s, i - 1) && s[i].value == v
    }

    /** `list_create` */
    constructor ()
      ensures Valid() && values == [] && nodes == []
    {
      head, tail, length := null, null, 0;
      nodes, values := [], [];
    }

    /** `list_append`, which leaves `prev` alone in an empty list. */
    method Append(node: Node<T>)
      requires Valid() && node !in nodes && (nodes == [] ==> node.prev == null)
      modifies this, node, nodes
      ensures Valid() && values == old(values) + [old(node.value)] && nodes == old(nodes) + [node]
    {
      node.next := null;
      if tail == null {
        head := node;
      } else {
        tail.next := node;
        node.prev := tail;
      }
      tail := node;
      length := length + 1;
      nodes, values := nodes + [node], values + [node.value];
    }

    /** `list_insert` */
    method Insert(item: T)
      requires Valid()
      modifies this, nodes
      ensures Valid() && values == old(values) + [item]
      ensures |nodes| == |old(nodes)| + 1 && nodes[..|nodes| - 1] == old(nodes) && fresh(nodes[|nodes| - 1])
    {
      var node := new Node(item);
      Append(node);
    }

    /** `list_delete` */
    method Delete(node: Node<T>, ghost i: nat)
      requires Valid() && i < |nodes| && nodes[i] == node
      modifies this, nodes
      ensures Valid() && nodes == old(nodes[..i] + nodes[i + 1..]) && values == old(values[..i] + values[i + 1..])
      ensures node.value == old(node.value)
    {
      assert LinkedAt(nodes, i, values[i]);
      ghost var before, kept := nodes, values[..i] + values[i + 1..];
      if node == head {
        head := node.next;
      }
      if node == tail {
        tail := node.prev;
      }
      if node.prev != null {
        node.prev.next := node.next;
      }
      if node.next != null {
        node.next.prev := node.prev;
      }
      length := length - 1;
      nodes, values := nodes[..i] + nodes[i + 1..], kept;
      forall k | 0 <= k < |nodes|
        ensures LinkedAt(nodes, k, values[k])
      {
        ghost var x := if k < i then k else k + 1;
        assert old(LinkedAt(nodes, x, values[x]));
        assert nodes[k] == before[x] && values[k] == old(values[x]);
        assert NodeAt(nodes, k + 1) == if x + 1 == i then NodeAt(before, i + 1) else NodeAt(before, x + 1);
        assert NodeAt(nodes, k - 1) == if x == i + 1 then NodeAt(before, i - 1) else NodeAt(before, x - 1);
      }
    }

    /** `list_pop` */
    method Pop() returns (out: Node?<T>)
      requires Valid()
      modifies this, nodes
      ensures Valid()
      ensures out == null <==> old(values) == []
      ensures old(values) == [] ==> values == []
      ensures old(values) != [] ==>
        && out != null && out == old(nodes[|nodes| - 1]) && out.value == old(values[|values| - 1])
        && values == old(values[..|values| - 1]) && nodes == old(nodes[..|nodes| - 1])
    {
      if tail == null {
        return null;
      }
      out := tail;
      Delete(tail, |nodes| - 1);
    }
  }
}
