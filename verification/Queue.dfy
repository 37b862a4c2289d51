/** src/Queue.c: a list with a pointer to each end and a count. In that file `tail` is the front
    (its prev is null) and `head` the back, where add_Queue puts new nodes. */
module Queue {
  import opened Common
  import opened List
  import ListSort

  class Queue<T> {
    var head: Node?<T>
    var tail: Node?<T>
    var count: int
    ghost var nodes: seq<Node<T>>  // from tail to head

    ghost predicate Valid()
      reads this, nodes
    {
      Linked(nodes) && tail == First(nodes) && head == Last(nodes) && count == |nodes|
    }

    constructor ()
      ensures Valid() && nodes == []
    {
      head, tail, count, nodes := null, null, 0, [];
    }

    /** add_Queue: appends behind head. */
    method Add(l: Node<T>)
      requires Valid() && l !in nodes
      modifies this, nodes, l
      ensures Valid() && nodes == old(nodes) + [l]
    {
      var _ := List.Add(head, l, nodes);
      head := l;
      if tail == null {
        tail := head;
      }
      count := count + 1;
      nodes := nodes + [l];
    }

    /** prepend_Queue: puts l before tail. */
    method Prepend(l: Node<T>)
      requires Valid() && l !in nodes
      modifies this, nodes, l
      ensures Valid() && nodes == [l] + old(nodes)
    {
      tail := List.Prepend(tail, l, nodes);
      if head == null {
        head := tail;
      }
      count := count + 1;
      nodes := [l] + nodes;
    }

    /** remove_Queue: unlinks l wherever it stands. The branch that repairs a negative count is dead. */
    method Remove(l: Node<T>, ghost k: nat)
      requires Valid() && k < |nodes| && nodes[k] == l
      modifies this, nodes
      ensures Valid() && nodes == old(nodes)[..k] + old(nodes)[k + 1..]
      ensures l.prev == null && l.next == null
    {
      if head == l {
        head := head.prev;
      }
      tail := List.Remove(tail, l, nodes, k);
      count := count - 1;
      nodes := nodes[..k] + nodes[k + 1..];
    }

    /** pop_Queue: takes the front node off. */
    method Pop() returns (l: Node?<T>)
      requires Valid()
      modifies this, nodes
      ensures Valid()
      ensures old(nodes) == [] ==> l == null && nodes == []
      ensures old(nodes) != [] ==> l == old(nodes)[0] && nodes == old(nodes)[1..]
    {
      tail, l := List.Pop(tail, nodes);
      if l != null {
        count := count - 1;
        nodes := nodes[1..];
      }
      if tail == null {
        head := null;
      }
    }

    /** The loop of concat_Queue that counts the nodes of t, which stand behind s by now. */
    method CountThem(l: Node<T>, ghost s: seq<Node<T>>, ghost t: seq<Node<T>>)
      requires Linked(s + t) && First(t) == l
      modifies `count
      ensures count == old(count) + |t|
    {
      hide NoDup, Backward;
      var p: Node?<T>, i := l, 0;
      while p != null
        invariant i <= |t| && count == old(count) + i
        invariant p == if i < |t| then t[i] else null
        decreases |t| - i
      {
        assert (s + t)[|s| + i].next == if i + 1 < |t| then (s + t)[|s| + i + 1] else null;
        p := p.next;
        count := count + 1;
        i := i + 1;
      }
    }

    /** concat_Queue: hangs the list t, given by its first node l, behind head and counts it. */
    method Concat(l: Node<T>, ghost t: seq<Node<T>>)
      requires Valid() && Linked(t) && NoDup(nodes + t) && First(t) == l
      modifies this, nodes, t
      ensures Valid() && nodes == old(nodes) + t
    {
      hide NoDup, Forward, Backward;
      ghost var all := nodes + t;
      head := List.Concat(head, l, nodes, t);
      if tail == null {
        tail := Rewind(head, all);
      }
      head := Unwind(head, all);
      CountThem(l, nodes, t);
      nodes := all;
    }

    /** sort_Queue: sorts from the front and finds the back again. */
    method Sort(cmp: ListSort.Order<T>)
      requires Valid()
      modifies this, nodes
      ensures Valid() && nodes == ListSort.BottomUp(cmp, old(nodes), 1)
    {
      hide NoDup, Forward, Backward, ListSort.BottomUp;
      ListSort.BottomUpPermutes(cmp, nodes, 1);
      tail := ListSort.Sort(cmp, tail, nodes);
      nodes := ListSort.BottomUp(cmp, nodes, 1);
      assert |multiset(nodes)| == |nodes| && |multiset(old(nodes))| == |old(nodes)|;
      head := Unwind(tail, nodes);
    }
  }
}
