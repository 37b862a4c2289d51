/** The intrusive doubly linked list of src/List.c. A list is given by a pointer to one of its
    nodes; the ghost sequence passed along with it names the nodes that pointer stands for. */
module List {
  import opened Common

  class Node<T> {
    var prev: Node?<T>
    var next: Node?<T>
    const data: T  // the fields that follow the links in the C structure

    constructor (data: T)
      ensures prev == null && next == null && this.data == data
    {
      this.data := data;
      prev, next := null, null;
    }
  }

  ghost function First<T>(s: seq<Node<T>>): Node?<T> {
    if s == [] then null else s[0]
  }

  ghost function Last<T>(s: seq<Node<T>>): Node?<T> {
    if s == [] then null else s[|s| - 1]
  }

  /** s[i] is followed by its neighbour, and the last one by null. */
  ghost predicate Forward<T>(s: seq<Node<T>>)
    reads s
  {
    forall i {:trigger s[i].next} :: 0 <= i < |s| ==> s[i].next == if i + 1 < |s| then s[i + 1] else null
  }

  ghost predicate Backward<T>(s: seq<Node<T>>)
    reads s
  {
    forall i {:trigger s[i].prev} :: 0 <= i < |s| ==> s[i].prev == if i > 0 then s[i - 1] else null
  }

  /** The nodes of s, in this order, form one complete list: prev and next agree everywhere. */
  ghost predicate Linked<T>(s: seq<Node<T>>)
    reads s
  {
    NoDup(s) && Forward(s) && Backward(s)
  }

  /** A list is determined by its first node: no two sequences are laid out from the same node. */
  lemma LinkedUnique<T>(s: seq<Node<T>>, t: seq<Node<T>>)
    requires Forward(s) && Forward(t) && First(s) == First(t)
    ensures s == t
  {
    var i := 0;
    while i < |s| && i < |t|
      invariant 0 <= i <= |s| && i <= |t|
      invariant s[..i] == t[..i]
      invariant (if i < |s| then s[i] else null) == if i < |t| then t[i] else null
    {
      assert s[i].next == t[i].next;
      i := i + 1;
    }
  }

  method Rewind<T>(root: Node?<T>, ghost s: seq<Node<T>>) returns (r: Node?<T>)
    requires Linked(s)
    requires root == null || root in s
    ensures r == if root == null then null else s[0]
  {
    if root == null {
      return null;
    }
    r := root;
    ghost var k :| 0 <= k < |s| && s[k] == root;
    while r.prev != null
      invariant 0 <= k < |s| && s[k] == r
      decreases k
    {
      r := r.prev;
      k := k - 1;
    }
  }

  method Unwind<T>(root: Node?<T>, ghost s: seq<Node<T>>) returns (r: Node?<T>)
    requires Linked(s)
    requires root == null || root in s
    ensures r == if root == null then null else s[|s| - 1]
  {
    if root == null {
      return null;
    }
    r := root;
    ghost var k :| 0 <= k < |s| && s[k] == root;
    while r.next != null
      invariant 0 <= k < |s| && s[k] == r
      decreases |s| - k
    {
      r := r.next;
      k := k + 1;
    }
  }

  /** add_List: appends l behind the last node; root may point at any node of the list. */
  method Add<T>(root: Node?<T>, l: Node<T>, ghost s: seq<Node<T>>) returns (root': Node<T>)
    requires Linked(s) && l !in s
    requires if root == null then s == [] else root in s
    modifies s, l
    ensures Linked(s + [l])
    ensures root' == if root == null then l else root
  {
    l.prev, l.next := null, null;
    if root == null {
      root' := l;
    } else {
      var lp := Unwind(root, s);
      lp.next := l;
      l.prev := lp;
      root' := root;
    }
  }

  /** prepend_List: puts l in front of the first node. */
  method Prepend<T>(root: Node?<T>, l: Node<T>, ghost s: seq<Node<T>>) returns (root': Node<T>)
    requires Linked(s) && l !in s
    requires if root == null then s == [] else root in s
    modifies s, l
    ensures Linked([l] + s) && root' == l
  {
    l.prev, l.next := null, null;
    if root != null {
      var lp := Rewind(root, s);
      lp.prev := l;
      l.next := lp;
    }
    root' := l;
  }

  /** concat_List: hangs the whole list t behind s. */
  method Concat<T>(root: Node?<T>, l: Node?<T>, ghost s: seq<Node<T>>, ghost t: seq<Node<T>>)
    returns (root': Node?<T>)
    requires Linked(s) && Linked(t) && NoDup(s + t)
    requires if root == null then s == [] else root in s
    requires l == First(t)
    modifies s, t
    ensures Linked(s + t)
    ensures root' == if root == null then l else root
  {
    root' := root;
    if l == null {
      assert s + t == s;
      return;
    }
    if root == null {
      assert s + t == t;
      root' := l;
    } else {
      assert forall i :: 0 <= i < |s| ==> (s + t)[i] == s[i];
      assert forall i :: 0 <= i < |t| ==> (s + t)[|s| + i] == t[i];
      var p := Unwind(root, s);
      p.next := l;
      l.prev := p;
    }
  }

  /** remove_List: unlinks l, which stands at index k; root is the first node. */
  method Remove<T>(root: Node?<T>, l: Node<T>, ghost s: seq<Node<T>>, ghost k: nat)
    returns (root': Node?<T>)
    requires Linked(s) && root == First(s)
    requires k < |s| && s[k] == l
    modifies s
    ensures Linked(s[..k] + s[k + 1..])
    ensures root' == First(s[..k] + s[k + 1..])
    ensures l.prev == null && l.next == null
  {
    root' := root;
    if l.prev == null {
      root' := l.next;
    } else {
      l.prev.next := l.next;
    }
    if l.next != null {
      l.next.prev := l.prev;
    }
    l.next, l.prev := null, null;
  }

  /** pop_List: unlinks and returns the first node, wherever root points. */
  method Pop<T>(root: Node?<T>, ghost s: seq<Node<T>>) returns (root': Node?<T>, l: Node?<T>)
    requires Linked(s)
    requires if root == null then s == [] else root in s
    modifies s
    ensures s == [] ==> root' == null && l == null
    ensures s != [] ==> l == s[0] && Linked(s[1..]) && root' == First(s[1..])
    ensures l != null ==> l.prev == null && l.next == null
  {
    if root == null {
      return null, null;
    }
    l := Rewind(root, s);
    root' := l.next;
    if root' != null {
      root'.prev := null;
    }
    l.prev, l.next := null, null;
  }
}
