/**
 * The singly linked list of week3/linked_list/src/linked_list.rs: an owned
 * chain of nodes starting at `head`, with a `size` field kept equal to the
 * number of nodes.
 */
module LinkedLists {
  import opened Wrappers
  import opened Seqs

  class Node<T> {
    var value: T
    var next: Node?<T>

    /** `Node::new(value)`: a node with no successor. */
    constructor (value: T)
      ensures this.value == value && next == null
    {
      this.value := value;
      next := null;
    }
  }

  /**
   * `nodes` is the chain that starts at `head`, node `k` holding `values[k]`,
   * each node pointing at the following one and the last one at nothing.
   */
  ghost predicate IsChain<T>(head: Node?<T>, nodes: seq<Node<T>>, values: seq<T>)
    reads nodes
  {
    |nodes| == |values| &&
    head == After(nodes, -1) &&
    (forall k :: 0 <= k < |nodes| ==> nodes[k].value == values[k]) &&
    (forall k :: 0 <= k < |nodes| ==> nodes[k].next == After(nodes, k))
  }

  /** The node that follows position `k` of `nodes`, or nothing after the last one. */
  ghost function After<T>(nodes: seq<Node<T>>, k: int): Node?<T>
    requires -1 <= k < |nodes|
  {
    if k + 1 < |nodes| then nodes[k + 1] else null
  }

  /** A node whose successor starts a chain starts the chain one node longer. */
  lemma ChainCons<T>(n: Node<T>, nodes: seq<Node<T>>, values: seq<T>)
    requires IsChain(n.next, nodes, values)
    ensures IsChain(n, [n] + nodes, [n.value] + values)
  {
    var nodes2 := [n] + nodes;
    assert n.next == After(nodes2, 0);
    forall k | 1 <= k < |nodes2|
      ensures nodes2[k].next == After(nodes2, k)
    {
      assert nodes2[k] == nodes[k - 1];
      assert nodes[k - 1].next == After(nodes, k - 1);
    }
  }

  /** Dropping the first node of a chain leaves the chain that starts at its successor. */
  lemma ChainTail<T>(head: Node?<T>, nodes: seq<Node<T>>, values: seq<T>)
    requires IsChain(head, nodes, values) && nodes != []
    ensures IsChain(nodes[0].next, nodes[1..], values[1..])
  {
    var rest := nodes[1..];
    assert nodes[0].next == After(nodes, 0);
    forall k | 0 <= k < |rest|
      ensures rest[k].next == After(rest, k)
    {
      assert rest[k] == nodes[k + 1];
      assert nodes[k + 1].next == After(nodes, k + 1);
    }
  }

  /** The last node of `nodes`, or nothing when there is none. */
  ghost function Last<T>(nodes: seq<Node<T>>): Node?<T>
  {
    if nodes == [] then null else nodes[|nodes| - 1]
  }

  /** The last node of a chain is none of the nodes before it: they all have a successor. */
  lemma LastIsNew<T>(head: Node?<T>, nodes: seq<Node<T>>, values: seq<T>)
    requires IsChain(head, nodes, values)
    ensures forall p :: 0 <= p < |nodes| - 1 ==> nodes[p] != Last(nodes)
  {
    forall p | 0 <= p < |nodes| - 1
      ensures nodes[p] != Last(nodes)
    {
      assert nodes[p].next == After(nodes, p) == nodes[p + 1];
      assert Last(nodes).next == After(nodes, |nodes| - 1) == null;
    }
  }

  class LinkedList<T(==)> {
    var head: Node?<T>
    var size: nat

    /** The elements, front to back. */
    ghost var Contents: seq<T>
    /** The nodes of the chain, front to back. */
    ghost var Nodes: seq<Node<T>>
    /** The objects the list owns: itself and its nodes. */
    ghost var Repr: set<object>

    /** The object invariant: `size` is the number of nodes reachable from `head`. */
    ghost predicate Valid()
      reads this, Repr
    {
      Linked() && size == |Nodes|
    }

    /** The list owns the chain that starts at `head`; `size` is not yet constrained. */
    ghost predicate Linked()
      reads this, Repr
    {
      this in Repr &&
      (forall k :: 0 <= k < |Nodes| ==> Nodes[k] in Repr) &&
      IsChain(head, Nodes, Contents)
    }

    /** `LinkedList::new()`. */
    constructor ()
      ensures Valid() && fresh(Repr)
      ensures Contents == [] && GetSize() == 0 && IsEmpty()
    {
      head := null;
      size := 0;
      Contents := [];
      Nodes := [];
      Repr := {this};
    }

    /** `get_size()`: the number of elements. */
    function GetSize(): (n: nat)
      reads this, Repr
      requires Valid()
      ensures n == |Contents|
    {
      size
    }

    /** `is_empty()`: whether the list holds no element. */
    function IsEmpty(): (e: bool)
      reads this, Repr
      requires Valid()
      ensures e <==> Contents == []
      ensures e <==> GetSize() == 0
    {
      size == 0
    }

    /** `push_front(value)`: a new first node; the rest of the list is unchanged. */
    method PushFront(value: T)
      requires Valid()
      modifies this
      ensures Valid() && fresh(Repr - old(Repr))
      ensures Contents == [value] + old(Contents)
      ensures size == old(size) + 1
    {
      var newNode := new Node(value);
      newNode.next := head;
      ChainCons(newNode, Nodes, Contents);
      head := newNode;
      size := size + 1;
      Contents := [value] + Contents;
      Nodes := [newNode] + Nodes;
      Repr := Repr + {newNode};
    }

    /**
     * `pop_front()`: on an empty list, nothing and no change; otherwise the
     * first element, which stops being part of the list.
     */
    method PopFront() returns (r: Option<T>)
      requires Valid()
      modifies this
      ensures Valid() && Repr == old(Repr)
      ensures old(Contents) == [] ==> r == None && Contents == [] && size == 0
      ensures old(Contents) != [] ==>
        r == Some(old(Contents)[0]) && Contents == old(Contents)[1..] && size == old(size) - 1
    {
      if head == null {
        r := None;
      } else {
        var node := head;
        ChainTail(head, Nodes, Contents);
        head := node.next;
        size := size - 1;
        r := Some(node.value);
        Contents := Contents[1..];
        Nodes := Nodes[1..];
      }
    }

    /** `Iterator::next`: the same as `pop_front`. */
    method Next() returns (r: Option<T>)
      requires Valid()
      modifies this
      ensures Valid() && Repr == old(Repr)
      ensures old(Contents) == [] ==> r == None && Contents == [] && size == 0
      ensures old(Contents) != [] ==>
        r == Some(old(Contents)[0]) && Contents == old(Contents)[1..] && size == old(size) - 1
      ensures (if r.Some? then [r.value] else []) + Contents == old(Contents)
    {
      r := PopFront();
    }

    /**
     * The state of a copy under construction: the chain is owned and `tail`
     * is its last node, or null while it is empty.
     */
    ghost predicate Building(tail: Node?<T>)
      reads this, Repr
    {
      Linked() && tail == Last(Nodes)
    }

    /**
     * `clone()`: a list of fresh nodes with the same elements in the same
     * order. A cursor walks the source chain while the copy is extended at
     * its tail; `size` is copied once the walk is over. The source is not
     * modified.
     */
    method Clone() returns (c: LinkedList<T>)
      requires Valid()
      ensures c.Valid() && fresh(c.Repr)
      ensures c.Contents == Contents && c.size == size
    {
      c := new LinkedList();
      CopyInto(c);
      c.SetSize(size);
    }

    /**
     * The loop of `clone`: a cursor walks this chain while `c`, empty on
     * entry, is extended at its tail with a fresh copy of each node.
     */
    method CopyInto(c: LinkedList<T>)
      requires Valid() && c != this
      requires c.Linked() && c.Contents == []
      modifies c
      ensures c.Linked() && |c.Nodes| == |Nodes| && c.Contents == Contents
      ensures fresh(c.Repr - old(c.Repr)) && c.size == old(c.size)
    {
      ghost var nodes, values := Nodes, Contents;
      var currentOld := head;
      // the node whose `next` slot is to receive the next copy; null while the slot is `c.head`
      var tail: Node?<T> := null;
      ghost var k := 0;
      while currentOld != null
        invariant 0 <= k <= |nodes|
        invariant currentOld == After(nodes, k - 1)
        invariant c.Building(tail) && c.size == old(c.size)
        invariant fresh(c.Repr - old(c.Repr)) && (tail == null || fresh(tail))
        invariant c.Contents == values[..k] && |c.Nodes| == k
        decreases |nodes| - k
      {
        assert currentOld.next == After(nodes, k);
        tail := c.AppendAfter(tail, currentOld.value);
        currentOld := currentOld.next;
        k := k + 1;
        PrefixSnoc(values, k);
      }
      assert values[..k] == values;
    }

    /** The last statement of `clone`: the copied `size` matches the chain built. */
    method SetSize(n: nat)
      requires Linked() && n == |Nodes|
      modifies this
      ensures Valid() && size == n
      ensures Contents == old(Contents) && Nodes == old(Nodes) && Repr == old(Repr)
    {
      size := n;
    }

    /**
     * One step of `clone`: a fresh node holding `value` is stored in the slot
     * after `tail`, or in `head` when there is no tail yet, extending the
     * chain by one node at its end; `size` is left alone.
     */
    method AppendAfter(tail: Node?<T>, value: T) returns (n: Node<T>)
      requires Building(tail)
      modifies this, tail
      ensures Building(n) && fresh(n)
      ensures Nodes == old(Nodes) + [n] && Contents == old(Contents) + [value]
      ensures Repr == old(Repr) + {n} && size == old(size)
    {
      n := Attach(this, tail, Nodes, Contents, value);
      Nodes := Nodes + [n];
      Contents := Contents + [value];
      Repr := Repr + {n};
    }

    /**
     * `eq(other)`: different sizes are unequal; otherwise the two chains are
     * walked in lock-step and the first differing pair makes them unequal.
     */
    method Eq(other: LinkedList<T>) returns (r: bool)
      requires Valid() && other.Valid()
      ensures r <==> Contents == other.Contents
    {
      if size != other.size {
        return false;
      }
      var currSelf, currOther := head, other.head;
      ghost var k := 0;
      while currSelf != null && currOther != null
        invariant 0 <= k <= |Nodes| && k <= |other.Nodes|
        invariant currSelf == After(Nodes, k - 1)
        invariant currOther == After(other.Nodes, k - 1)
        invariant Contents[..k] == other.Contents[..k]
        decreases |Nodes| - k
      {
        assert currSelf.next == After(Nodes, k);
        assert currOther.next == After(other.Nodes, k);
        if currSelf.value != currOther.value {
          assert Contents[k] != other.Contents[k];
          return false;
        }
        currSelf, currOther := currSelf.next, currOther.next;
        k := k + 1;
        PrefixSnoc(Contents, k);
        PrefixSnoc(other.Contents, k);
      }
      assert Contents[..k] == Contents && other.Contents[..k] == other.Contents;
      return true;
    }
  }

  /**
   * The heap update of `LinkedList.AppendAfter`: the new node goes into
   * `list.head` when there is no tail, and after `tail` otherwise.
   */
  method Attach<T(==)>(list: LinkedList<T>, tail: Node?<T>, ghost nodes: seq<Node<T>>,
                       ghost values: seq<T>, value: T) returns (n: Node<T>)
    requires IsChain(list.head, nodes, values)
    requires tail == Last(nodes)
    modifies list, tail
    ensures fresh(n)
    ensures IsChain(list.head, nodes + [n], values + [value])
    ensures list.size == old(list.size) && list.Nodes == old(list.Nodes)
    ensures list.Contents == old(list.Contents) && list.Repr == old(list.Repr)
  {
    LastIsNew(list.head, nodes, values);
    n := new Node(value);
    if tail == null {
      list.head := n;
    } else {
      tail.next := n;
    }
    ghost var nodes2 := nodes + [n];
    assert nodes != [] ==> nodes2[0] == nodes[0];
    forall p | 0 <= p < |nodes2|
      ensures nodes2[p].next == After(nodes2, p)
    {
      if p < |nodes| - 1 {
        assert nodes2[p] == nodes[p];
        assert nodes[p].next == After(nodes, p);
      }
    }
  }
}

/**
 * Clients of the list that state its laws across several calls: the LIFO law
 * of `push_front`/`pop_front` and the order in which the iterator yields.
 */
module LinkedListLaws {
  import opened Wrappers
  import opened Seqs
  import opened LinkedLists

  /** `push_front(v)` then `pop_front()` yields `v` and leaves the list as it was. */
  method PushThenPop<T(==)>(l: LinkedList<T>, v: T) returns (r: Option<T>)
    requires l.Valid()
    modifies l
    ensures l.Valid() && r == Some(v)
    ensures l.Contents == old(l.Contents) && l.size == old(l.size)
  {
    l.PushFront(v);
    r := l.PopFront();
  }

  /**
   * Calling `next` until it yields nothing: the items come out front to back,
   * there are exactly `size` of them, and the list is left empty.
   */
  method Drain<T(==)>(l: LinkedList<T>) returns (items: seq<T>)
    requires l.Valid()
    modifies l
    ensures l.Valid() && l.Contents == [] && l.IsEmpty()
    ensures items == old(l.Contents) && |items| == old(l.size)
  {
    ghost var all := l.Contents;
    items := [];
    while true
      invariant l.Valid() && items + l.Contents == all
      decreases |l.Contents|
    {
      ghost var rest := l.Contents;
      var x := l.Next();
      if x.None? {
        break;
      }
      MoveFront(items, rest);
      items := items + [x.value];
    }
    assert items + [] == items;
  }
}
