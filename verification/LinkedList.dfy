/** The doubly linked list of std_list.c. */
module LinkedList {
  import opened Wrappers

  datatype Direction = Head | Tail

  class Node<V> {
    var val: V
    var prev: Node?<V>
    var next: Node?<V>

    constructor (val: V)
      ensures this.val == val && prev == null && next == null
    {
      this.val, prev, next := val, null, null;
    }
  }

  ghost predicate Distinct<V>(nodes: seq<Node<V>>) {
    forall i, j :: 0 <= i < j < |nodes| ==> nodes[i] != nodes[j]
  }

  // The i-th node, or null at either end.
  ghost function At<V>(nodes: seq<Node<V>>, i: int): Node?<V> {
    if 0 <= i < |nodes| then nodes[i] else null
  }

  // prev and next are each other's inverse along the nodes.
  ghost predicate Linked<V>(nodes: seq<Node<V>>)
    reads nodes`prev, nodes`next
  {
    && (forall i {:trigger nodes[i].prev} :: 0 <= i < |nodes| ==> nodes[i].prev == At(nodes, i - 1))
    && (forall i {:trigger nodes[i].next} :: 0 <= i < |nodes| ==> nodes[i].next == At(nodes, i + 1))
  }

  ghost function Only<V>(node: Node?<V>): set<Node<V>> {
    if node == null then {} else {node}
  }

  lemma StillDistinct<V>(nodes: seq<Node<V>>, i: nat)
    requires Distinct(nodes) && i < |nodes|
    ensures Distinct(nodes[..i] + nodes[i + 1..]) && nodes[i] !in nodes[..i] + nodes[i + 1..]
  {
  }

  lemma AtRest<V>(nodes: seq<Node<V>>, i: nat, j: int)
    requires i < |nodes|
    ensures At(nodes[..i] + nodes[i + 1..], j) == if j < i then At(nodes, j) else At(nodes, j + 1)
  {
  }

  lemma AtEnds<V>(nodes: seq<Node<V>>)
    ensures At(nodes, -1) == null && At(nodes, |nodes|) == null
  {
  }

  class List<V(==)> {
    var head: Node?<V>
    var tail: Node?<V>
    var len: nat
    var matcher: Option<(V, V) -> bool>
    ghost var nodes: seq<Node<V>>

    ghost predicate Valid()
      reads this, nodes`prev, nodes`next
    {
      && len == |nodes| && Distinct(nodes) && Linked(nodes)
      && head == At(nodes, 0) && tail == At(nodes, len - 1)
    }

    constructor ()
      ensures Valid() && nodes == [] && matcher == None
    {
      head, tail, len, matcher, nodes := null, null, 0, None, [];
    }

    method RPush(node: Node?<V>) returns (r: Node?<V>)
      requires Valid() && node !in nodes
      modifies this`head, this`tail, this`len, this`nodes, Only(node)`prev, Only(node)`next, nodes`next
      ensures Valid() && r == node
      ensures nodes == if node == null then old(nodes) else old(nodes) + [node]
    {
      if node == null {
        return null;
      }
      if len > 0 {
        node.prev := tail;
        node.next := null;
        tail.next := node;
        tail := node;
      } else {
        head, tail := node, node;
        node.prev, node.next := null, null;
      }
      len := len + 1;
      nodes := nodes + [node];
      return node;
    }

    method LPush(node: Node?<V>) returns (r: Node?<V>)
      requires Valid() && node !in nodes
      modifies this`head, this`tail, this`len, this`nodes, Only(node)`prev, Only(node)`next, nodes`prev
      ensures Valid() && r == node
      ensures nodes == if node == null then old(nodes) else [node] + old(nodes)
    {
      if node == null {
        return null;
      }
      if len > 0 {
        node.next := head;
        node.prev := null;
        head.prev := node;
        head := node;
      } else {
        head, tail := node, node;
        node.prev, node.next := null, null;
      }
      len := len + 1;
      nodes := [node] + nodes;
      return node;
    }

    method RPop() returns (node: Node?<V>)
      requires Valid()
      modifies this`head, this`tail, this`len, this`nodes, nodes`prev, nodes`next
      ensures Valid()
      ensures old(nodes) == [] ==> node == null && nodes == []
      ensures old(nodes) != [] ==>
                node != null && old(nodes) == nodes + [node] && node.prev == null && node.next == null
    {
      if len == 0 {
        return null;
      }
      node := tail;
      len := len - 1;
      if len > 0 {
        tail := node.prev;
        tail.next := null;
      } else {
        tail, head := null, null;
      }
      node.next, node.prev := null, null;
      nodes := nodes[..len];
    }

    method LPop() returns (node: Node?<V>)
      requires Valid()
      modifies this`head, this`tail, this`len, this`nodes, nodes`prev, nodes`next
      ensures Valid()
      ensures old(nodes) == [] ==> node == null && nodes == []
      ensures old(nodes) != [] ==>
                node != null && old(nodes) == [node] + nodes && node.prev == null && node.next == null
    {
      if len == 0 {
        return null;
      }
      node := head;
      len := len - 1;
      if len > 0 {
        head := node.next;
        head.prev := null;
      } else {
        head, tail := null, null;
      }
      node.next, node.prev := null, null;
      nodes := nodes[1..];
    }

    // The node before `node`, or the head, passes on to the one after it.
    method LinkOver(node: Node<V>, ghost i: nat)
      requires Valid() && i < |nodes| && nodes[i] == node
      modifies this`head, nodes`next
      ensures forall j {:trigger nodes[j].next} :: 0 <= j < |nodes| ==>
        nodes[j].next == if j == i - 1 then At(nodes, i + 1) else At(nodes, j + 1)
      ensures head == if i == 0 then At(nodes, 1) else old(head)
    {
      if node.prev != null {
        node.prev.next := node.next;
      } else {
        head := node.next;
      }
    }

    // And the node after it, or the tail, back to the one before it.
    method LinkBack(node: Node<V>, ghost i: nat)
      requires i < |nodes| && nodes[i] == node && Distinct(nodes) && len == |nodes| && tail == At(nodes, len - 1)
      requires node.next == At(nodes, i + 1)
      requires forall j {:trigger nodes[j].prev} :: 0 <= j < |nodes| ==> nodes[j].prev == At(nodes, j - 1)
      modifies this`tail, nodes`prev
      ensures forall j {:trigger nodes[j].prev} :: 0 <= j < |nodes| ==>
        nodes[j].prev == if j == i + 1 then At(nodes, i - 1) else At(nodes, j - 1)
      ensures tail == if i == len - 1 then At(nodes, i - 1) else old(tail)
    {
      if node.next != null {
        node.next.prev := node.prev;
      } else {
        tail := node.prev;
      }
    }

    // The source frees the node.
    method Remove(node: Node<V>, ghost i: nat)
      requires Valid() && i < |nodes| && nodes[i] == node
      modifies this`head, this`tail, this`len, this`nodes, nodes`prev, nodes`next
      ensures Valid() && nodes == old(nodes[..i] + nodes[i + 1..])
    {
      hide Distinct, At;
      LinkOver(node, i);
      LinkBack(node, i);
      ghost var rest := nodes[..i] + nodes[i + 1..];
      StillDistinct(nodes, i);
      AtRest(nodes, i, 0);
      AtRest(nodes, i, len - 2);
      AtEnds(nodes);
      forall j | 0 <= j < |rest| ensures rest[j].prev == At(rest, j - 1) && rest[j].next == At(rest, j + 1) {
        AtRest(nodes, i, j - 1);
        AtRest(nodes, i, j + 1);
        assert rest[j] == if j < i then nodes[j] else nodes[j + 1];
      }
      len := len - 1;
      nodes := rest;
    }

    // What list_find takes for equal.
    predicate Matches(val: V, other: V)
      reads this`matcher
    {
      match matcher
      case Some(same) => same(val, other)
      case None => val == other
    }

    /** list_find: the first node that matches, or null if none does. */
    method Find(val: V) returns (node: Node?<V>)
      requires Valid()
      ensures matcher.None? ==>
                && (node == null ==> forall k :: 0 <= k < |nodes| ==> nodes[k].val != val)
                && (node != null ==> exists i :: 0 <= i < |nodes| && nodes[i] == node && node.val == val
                                                 && forall k :: 0 <= k < i ==> nodes[k].val != val)
      ensures matcher.Some? ==>
                && (node == null ==> forall k :: 0 <= k < |nodes| ==> !matcher.value(val, nodes[k].val))
                && (node != null ==> exists i :: 0 <= i < |nodes| && nodes[i] == node && matcher.value(val, node.val)
                                                 && forall k :: 0 <= k < i ==> !matcher.value(val, nodes[k].val))
    {
      var it := new Iterator(head, Direction.Head);
      ghost var i := 0;
      node := it.Next();
      while node != null
        invariant i <= |nodes| && node == At(nodes, i) && (node != null ==> it.next == At(nodes, i + 1))
        invariant it.direction == Direction.Head
        invariant forall k :: 0 <= k < i ==> !Matches(val, nodes[k].val)
        decreases |nodes| - i
      {
        if Matches(val, node.val) {
          return;
        }
        node := it.Next();
        i := i + 1;
      }
    }

    /** list_at: from the head for an index, from the tail for a negative one, null outside the list. */
    method ListAt(index: int) returns (node: Node?<V>)
      requires Valid()
      ensures node ==
              if 0 <= index < len then nodes[index]
              else if 0 <= len + index && index < 0 then nodes[len + index] else null
    {
      var direction, left := Direction.Head, index;
      if index < 0 {
        direction, left := Direction.Tail, -index - 1;
      }
      if left >= len {
        return null;
      }
      ghost var step := if direction == Direction.Head then 1 else -1;
      ghost var at := if direction == Direction.Head then 0 else len - 1;
      var it := new Iterator(if direction == Direction.Head then head else tail, direction);
      node := it.Next();
      while left > 0
        invariant 0 <= left && 0 <= at < len && it.direction == direction
        invariant node == nodes[at] && it.next == At(nodes, at + step)
        invariant at + step * left == if direction == Direction.Head then index else len + index
        invariant step == if direction == Direction.Head then 1 else -1
        invariant if direction == Direction.Head then at + left < len else left <= at
      {
        node := it.Next();
        left, at := left - 1, at + step;
      }
    }
  }

  class Iterator<V> {
    var next: Node?<V>
    const direction: Direction

    constructor (node: Node?<V>, direction: Direction)
      ensures next == node && this.direction == direction
    {
      next, this.direction := node, direction;
    }

    method Next() returns (curr: Node?<V>)
      modifies this
      ensures curr == old(next)
      ensures next == if curr == null then null else if direction == Direction.Head then curr.next else curr.prev
    {
      curr := next;
      if curr != null {
        next := if direction == Direction.Head then curr.next else curr.prev;
      }
    }
  }
}
