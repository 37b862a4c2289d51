/** sort_List of src/List.c: the bottom-up merge sort that relinks the nodes in place. Merge, Pass and
    BottomUp say which order the loops produce; the lemmas say what that order is worth. */
module ListSort {
  import opened Common
  import opened List

  type Order<!T> = (T, T) -> int

  // ---------------------------------------------------------------- the order that is computed

  /** Takes from b only when its head is strictly smaller, as `sort_func(&p, &q) <= 0` does. */
  ghost function Merge<T>(cmp: Order<T>, a: seq<Node<T>>, b: seq<Node<T>>): seq<Node<T>> {
    if a == [] then b
    else if b == [] then a
    else if cmp(a[0].data, b[0].data) <= 0 then [a[0]] + Merge(cmp, a[1..], b)
    else [b[0]] + Merge(cmp, a, b[1..])
  }

  /** One sweep: every two neighbouring runs of length k are merged. */
  ghost function Pass<T>(cmp: Order<T>, s: seq<Node<T>>, k: nat): seq<Node<T>>
    requires k > 0
    decreases |s|
  {
    if s == [] then []
    else
      var m, n := Min(k, |s|), Min(2 * k, |s|);
      Merge(cmp, s[..m], s[m..n]) + Pass(cmp, s[n..], k)
  }

  lemma FirstApart<X>(s: seq<X>)
    requires s != []
    ensures multiset(s) == multiset{s[0]} + multiset(s[1..])
  {
    assert s == [s[0]] + s[1..];
  }

  lemma {:induction false} MergePermutes<T>(cmp: Order<T>, a: seq<Node<T>>, b: seq<Node<T>>)
    ensures multiset(Merge(cmp, a, b)) == multiset(a) + multiset(b)
    ensures |Merge(cmp, a, b)| == |a| + |b|
  {
    if a != [] && b != [] {
      var r := Merge(cmp, a, b);
      if cmp(a[0].data, b[0].data) <= 0 {
        MergePermutes(cmp, a[1..], b);
        FirstApart(a);
        assert multiset(r) == multiset{a[0]} + multiset(Merge(cmp, a[1..], b));
      } else {
        MergePermutes(cmp, a, b[1..]);
        FirstApart(b);
        assert multiset(r) == multiset{b[0]} + multiset(Merge(cmp, a, b[1..]));
      }
    }
  }

  lemma {:induction false} PassPermutes<T>(cmp: Order<T>, s: seq<Node<T>>, k: nat)
    requires k > 0
    ensures multiset(Pass(cmp, s, k)) == multiset(s) && |Pass(cmp, s, k)| == |s|
    decreases |s|
  {
    if s != [] {
      var m, n := Min(k, |s|), Min(2 * k, |s|);
      MergePermutes(cmp, s[..m], s[m..n]);
      PassPermutes(cmp, s[n..], k);
      InThree(s, m, n);
    }
  }

  lemma InThree<X>(s: seq<X>, m: nat, n: nat)
    requires m <= n <= |s|
    ensures s == s[..m] + s[m..n] + s[n..]
    ensures multiset(s) == multiset(s[..m]) + multiset(s[m..n]) + multiset(s[n..])
  {
    assert s == s[..m] + s[m..n] + s[n..];
  }

  /** The passes with run length k, 2k, 4k, ... until one merge spans the whole list. */
  ghost function BottomUp<T>(cmp: Order<T>, s: seq<Node<T>>, k: nat): seq<Node<T>>
    requires k > 0
    decreases |s| - k
  {
    if |s| <= 2 * k then Pass(cmp, s, k)
    else
      PassPermutes(cmp, s, k);
      BottomUp(cmp, Pass(cmp, s, k), 2 * k)
  }

  // ---------------------------------------------------------------- what the order is worth

  ghost predicate TotalPreorder<T(!new)>(cmp: Order<T>) {
    && (forall x, y :: cmp(x, y) <= 0 || cmp(y, x) <= 0)
    && (forall x, y, z :: cmp(x, y) <= 0 && cmp(y, z) <= 0 ==> cmp(x, z) <= 0)
  }

  ghost predicate Sorted<T>(cmp: Order<T>, s: seq<Node<T>>) {
    forall i, j :: 0 <= i < j < |s| ==> cmp(s[i].data, s[j].data) <= 0
  }

  ghost predicate Ties<T>(cmp: Order<T>, v: T, w: T) {
    cmp(v, w) <= 0 && cmp(w, v) <= 0
  }

  /** The nodes that tie with v, in list order. */
  ghost function Class<T>(cmp: Order<T>, v: T, s: seq<Node<T>>): seq<Node<T>> {
    if s == [] then []
    else (if Ties(cmp, v, s[0].data) then [s[0]] else []) + Class(cmp, v, s[1..])
  }

  lemma {:induction false} ClassConcat<T>(cmp: Order<T>, v: T, a: seq<Node<T>>, b: seq<Node<T>>)
    ensures Class(cmp, v, a + b) == Class(cmp, v, a) + Class(cmp, v, b)
  {
    hide Ties;
    if a == [] {
      assert a + b == b;
    } else {
      ClassConcat(cmp, v, a[1..], b);
      assert (a + b)[0] == a[0] && (a + b)[1..] == a[1..] + b;
      var first, rest := if Ties(cmp, v, a[0].data) then [a[0]] else [], Class(cmp, v, a[1..]);
      assert first + (rest + Class(cmp, v, b)) == (first + rest) + Class(cmp, v, b);
    }
  }

  lemma {:induction false} ClassEmpty<T>(cmp: Order<T>, v: T, s: seq<Node<T>>)
    requires forall i :: 0 <= i < |s| ==> !Ties(cmp, v, s[i].data)
    ensures Class(cmp, v, s) == []
  {
    if s != [] {
      ClassEmpty(cmp, v, s[1..]);
    }
  }

  /** a's ties stay ahead of b's: overtaking happens only when nothing left in a ties with b's head. */
  lemma {:induction false} MergeStable<T(!new)>(cmp: Order<T>, v: T, a: seq<Node<T>>, b: seq<Node<T>>)
    requires TotalPreorder(cmp) && Sorted(cmp, a)
    ensures Class(cmp, v, Merge(cmp, a, b)) == Class(cmp, v, a) + Class(cmp, v, b)
  {
    if a != [] && b != [] {
      if cmp(a[0].data, b[0].data) <= 0 {
        MergeStable(cmp, v, a[1..], b);
        ClassConcat(cmp, v, [a[0]], Merge(cmp, a[1..], b));
      } else {
        MergeStable(cmp, v, a, b[1..]);
        if Ties(cmp, v, b[0].data) {
          forall i | 0 <= i < |a|
            ensures !Ties(cmp, v, a[i].data)
          {
            assert i == 0 || cmp(a[0].data, a[i].data) <= 0;
          }
          ClassEmpty(cmp, v, a);
        }
      }
    }
  }

  lemma {:induction false} MergeSorts<T(!new)>(cmp: Order<T>, a: seq<Node<T>>, b: seq<Node<T>>)
    requires TotalPreorder(cmp) && Sorted(cmp, a) && Sorted(cmp, b)
    ensures Sorted(cmp, Merge(cmp, a, b))
  {
    if a != [] && b != [] {
      if cmp(a[0].data, b[0].data) <= 0 {
        MergeSorts(cmp, a[1..], b);
        SortedCons(cmp, a[0], Merge(cmp, a[1..], b), a[1..], b);
      } else {
        MergeSorts(cmp, a, b[1..]);
        SortedCons(cmp, b[0], Merge(cmp, a, b[1..]), a, b[1..]);
      }
    }
  }

  lemma SortedCons<T(!new)>(cmp: Order<T>, h: Node<T>, m: seq<Node<T>>, a: seq<Node<T>>, b: seq<Node<T>>)
    requires TotalPreorder(cmp) && Sorted(cmp, a) && Sorted(cmp, b) && Sorted(cmp, m)
    requires m == Merge(cmp, a, b)
    requires a != [] ==> cmp(h.data, a[0].data) <= 0
    requires b != [] ==> cmp(h.data, b[0].data) <= 0
    ensures Sorted(cmp, [h] + m)
  {
    if m != [] {
      assert cmp(h.data, m[0].data) <= 0;
      forall j | 0 <= j < |m|
        ensures cmp(h.data, m[j].data) <= 0
      {
        assert j == 0 || cmp(m[0].data, m[j].data) <= 0;
      }
    }
  }

  /** Every block of k nodes, and the shorter one at the end, is sorted. */
  ghost predicate RunsSorted<T>(cmp: Order<T>, s: seq<Node<T>>, k: nat)
    requires k > 0
    decreases |s|
  {
    s == [] || (Sorted(cmp, s[..Min(k, |s|)]) && RunsSorted(cmp, s[Min(k, |s|)..], k))
  }

  lemma {:induction false} RunsOfOne<T>(cmp: Order<T>, s: seq<Node<T>>)
    ensures RunsSorted(cmp, s, 1)
  {
    if s != [] {
      RunsOfOne(cmp, s[1..]);
    }
  }

  /** The invariant of the outer loop: a pass turns sorted runs of k into sorted runs of 2k. */
  lemma {:induction false} PassDoublesRuns<T(!new)>(cmp: Order<T>, s: seq<Node<T>>, k: nat)
    requires k > 0 && TotalPreorder(cmp) && RunsSorted(cmp, s, k)
    ensures RunsSorted(cmp, Pass(cmp, s, k), 2 * k)
    decreases |s|
  {
    if s != [] {
      var m, n := Min(k, |s|), Min(2 * k, |s|);
      SecondRun(cmp, s, k);
      MergeSorts(cmp, s[..m], s[m..n]);
      MergePermutes(cmp, s[..m], s[m..n]);
      PassDoublesRuns(cmp, s[n..], k);
      PassPermutes(cmp, s[n..], k);
      var t, u := Merge(cmp, s[..m], s[m..n]), Pass(cmp, s[n..], k);
      assert (t + u)[..n] == t && (t + u)[n..] == u;
      assert Min(2 * k, |t + u|) == n;
    }
  }

  lemma FirstRun<T>(cmp: Order<T>, s: seq<Node<T>>, k: nat)
    requires k > 0 && s != [] && RunsSorted(cmp, s, k)
    ensures Sorted(cmp, s[..Min(k, |s|)]) && RunsSorted(cmp, s[Min(k, |s|)..], k)
  {
  }

  lemma NextRun<T>(cmp: Order<T>, s: seq<Node<T>>, m: nat, n: nat, k: nat)
    requires k > 0 && m <= |s| && n == Min(m + k, |s|) && RunsSorted(cmp, s[m..], k)
    ensures Sorted(cmp, s[m..n]) && RunsSorted(cmp, s[n..], k)
  {
    var r := s[m..];
    TailOf(s, m, n);
    assert Min(k, |r|) == n - m;
    if r != [] {
      FirstRun(cmp, r, k);
    }
  }

  lemma SecondRun<T>(cmp: Order<T>, s: seq<Node<T>>, k: nat)
    requires k > 0 && s != [] && RunsSorted(cmp, s, k)
    ensures Sorted(cmp, s[..Min(k, |s|)])
    ensures Sorted(cmp, s[Min(k, |s|)..Min(2 * k, |s|)])
    ensures RunsSorted(cmp, s[Min(2 * k, |s|)..], k)
  {
    FirstRun(cmp, s, k);
    NextRun(cmp, s, Min(k, |s|), Min(2 * k, |s|), k);
  }

  lemma {:induction false} PassStable<T(!new)>(cmp: Order<T>, v: T, s: seq<Node<T>>, k: nat)
    requires k > 0 && TotalPreorder(cmp) && RunsSorted(cmp, s, k)
    ensures Class(cmp, v, Pass(cmp, s, k)) == Class(cmp, v, s)
    decreases |s|
  {
    if s != [] {
      var m, n := Min(k, |s|), Min(2 * k, |s|);
      SecondRun(cmp, s, k);
      PassStable(cmp, v, s[n..], k);
      MergeThenRest(cmp, v, s[..m], s[m..n], s[n..], Pass(cmp, s[n..], k));
      InThree(s, m, n);
    }
  }

  lemma MergeThenRest<T(!new)>(cmp: Order<T>, v: T, a: seq<Node<T>>, b: seq<Node<T>>, c: seq<Node<T>>, c': seq<Node<T>>)
    requires TotalPreorder(cmp) && Sorted(cmp, a)
    requires Class(cmp, v, c') == Class(cmp, v, c)
    ensures Class(cmp, v, Merge(cmp, a, b) + c') == Class(cmp, v, a + b + c)
  {
    MergeStable(cmp, v, a, b);
    ClassConcat(cmp, v, Merge(cmp, a, b), c');
    ClassConcat(cmp, v, a, b);
    ClassConcat(cmp, v, a + b, c);
  }

  /** For any comparator whatsoever, no node is lost and none is doubled. */
  lemma {:induction false} BottomUpPermutes<T>(cmp: Order<T>, s: seq<Node<T>>, k: nat)
    requires k > 0
    ensures multiset(BottomUp(cmp, s, k)) == multiset(s)
    decreases |s| - k
  {
    PassPermutes(cmp, s, k);
    if |s| > 2 * k {
      BottomUpPermutes(cmp, Pass(cmp, s, k), 2 * k);
    }
  }

  lemma {:induction false} BottomUpSorts<T(!new)>(cmp: Order<T>, s: seq<Node<T>>, k: nat)
    requires k > 0 && TotalPreorder(cmp) && RunsSorted(cmp, s, k)
    ensures Sorted(cmp, BottomUp(cmp, s, k))
    ensures forall v :: Class(cmp, v, BottomUp(cmp, s, k)) == Class(cmp, v, s)
    decreases |s| - k
  {
    PassPermutes(cmp, s, k);
    PassDoublesRuns(cmp, s, k);
    forall v ensures Class(cmp, v, Pass(cmp, s, k)) == Class(cmp, v, s) {
      PassStable(cmp, v, s, k);
    }
    var t := Pass(cmp, s, k);
    if |s| > 2 * k {
      BottomUpSorts(cmp, t, 2 * k);
    } else if t != [] {
      assert t[..|t|] == t;
    }
  }

  /** What sort_List promises of a comparator that is a total preorder: the result is sorted, is a
      permutation, and nodes that tie keep their order. */
  lemma SortIsStable<T(!new)>(cmp: Order<T>, s: seq<Node<T>>)
    requires TotalPreorder(cmp)
    ensures Sorted(cmp, BottomUp(cmp, s, 1))
    ensures multiset(BottomUp(cmp, s, 1)) == multiset(s)
    ensures forall v :: Class(cmp, v, BottomUp(cmp, s, 1)) == Class(cmp, v, s)
  {
    RunsOfOne(cmp, s);
    BottomUpSorts(cmp, s, 1);
    BottomUpPermutes(cmp, s, 1);
  }

  /** These promises leave no freedom: a sorted list is determined by its classes of ties. */
  lemma {:induction false} StableSortUnique<T(!new)>(cmp: Order<T>, s: seq<Node<T>>, t: seq<Node<T>>)
    requires TotalPreorder(cmp) && Sorted(cmp, s) && Sorted(cmp, t)
    requires forall v :: Class(cmp, v, s) == Class(cmp, v, t)
    ensures s == t
  {
    if t != [] {
      ClassHasHead(cmp, t);
    }
    if s != [] {
      ClassHasHead(cmp, s);
      SameHead(cmp, s, t);
      forall v ensures Class(cmp, v, s[1..]) == Class(cmp, v, t[1..]) {
        ClassTail(cmp, v, s, t);
      }
      StableSortUnique(cmp, s[1..], t[1..]);
      assert s == [s[0]] + s[1..] && t == [t[0]] + t[1..];
    }
  }

  lemma SameHead<T(!new)>(cmp: Order<T>, s: seq<Node<T>>, t: seq<Node<T>>)
    requires TotalPreorder(cmp) && Sorted(cmp, s) && Sorted(cmp, t) && s != [] && t != []
    requires forall v :: Class(cmp, v, s) == Class(cmp, v, t)
    ensures s[0] == t[0]
  {
    HeadIsSmallest(cmp, s, t);
    HeadIsSmallest(cmp, t, s);
    ClassHasHead(cmp, s);
    assert Class(cmp, s[0].data, s) == Class(cmp, s[0].data, t);
  }

  lemma ClassTail<T>(cmp: Order<T>, v: T, s: seq<Node<T>>, t: seq<Node<T>>)
    requires s != [] && t != [] && s[0] == t[0] && Class(cmp, v, s) == Class(cmp, v, t)
    ensures Class(cmp, v, s[1..]) == Class(cmp, v, t[1..])
  {
    SameTail(if Ties(cmp, v, s[0].data) then [s[0]] else [], Class(cmp, v, s[1..]), Class(cmp, v, t[1..]));
  }

  lemma ClassHasHead<T(!new)>(cmp: Order<T>, s: seq<Node<T>>)
    requires TotalPreorder(cmp) && s != []
    ensures Class(cmp, s[0].data, s) != [] && Class(cmp, s[0].data, s)[0] == s[0]
  {
    assert Ties(cmp, s[0].data, s[0].data);
  }

  lemma SameTail<X>(a: seq<X>, b: seq<X>, c: seq<X>)
    requires a + b == a + c
    ensures b == c
  {
    assert b == (a + b)[|a|..];
    assert c == (a + c)[|a|..];
  }

  lemma HeadIsSmallest<T(!new)>(cmp: Order<T>, s: seq<Node<T>>, t: seq<Node<T>>)
    requires TotalPreorder(cmp) && Sorted(cmp, s) && s != [] && t != []
    requires forall v :: Class(cmp, v, s) == Class(cmp, v, t)
    ensures cmp(s[0].data, t[0].data) <= 0
  {
    var v := t[0].data;
    assert Ties(cmp, v, v);
    assert t[0] in Class(cmp, v, t);
    ClassMembers(cmp, v, s);
    var i :| 0 <= i < |s| && s[i] == t[0];
    assert cmp(s[0].data, s[0].data) <= 0;
  }

  lemma {:induction false} ClassMembers<T>(cmp: Order<T>, v: T, s: seq<Node<T>>)
    ensures forall n :: n in Class(cmp, v, s) ==> n in s
  {
    if s != [] {
      ClassMembers(cmp, v, s[1..]);
    }
  }

  lemma SameElements<T>(s: seq<T>, t: seq<T>, nodes: set<T>)
    requires multiset(s) == multiset(t) && Within(t, nodes)
    ensures Within(s, nodes)
  {
    forall x | x in s ensures x in nodes {
      assert x in multiset(s);
    }
  }

  // ---------------------------------------------------------------- the loops

  ghost predicate Apart<T>(a: seq<T>, b: seq<T>) {
    forall x :: x in a ==> x !in b
  }

  /** Between two steps of the merge: `out` is the finished list, `ps` what is left of the first run (its
      last next pointer is stale, as are all prev pointers), `rem` everything from q onwards. */
  ghost predicate Working<T>(out: seq<Node<T>>, ps: seq<Node<T>>, rem: seq<Node<T>>)
    reads out, ps, rem
  {
    && Linked(out) && NoDup(ps) && NoDup(rem)
    && Apart(out, ps) && Apart(out, rem) && Apart(ps, rem)
    && Chain(ps) && Forward(rem)
  }

  ghost predicate Chain<T>(s: seq<Node<T>>)
    reads s
  {
    forall i {:trigger s[i].next} :: 0 <= i < |s| - 1 ==> s[i].next == s[i + 1]
  }

  lemma ChainTail<T>(s: seq<Node<T>>)
    requires s != [] && Chain(s)
    ensures Chain(s[1..])
  {
    var t := s[1..];
    forall i | 0 <= i < |t| - 1
      ensures t[i].next == t[i + 1]
    {
      assert s[i + 1].next == s[i + 2];
    }
  }

  lemma ForwardTail<T>(s: seq<Node<T>>, m: nat)
    requires m <= |s| && Forward(s)
    ensures Forward(s[m..]) && Chain(s[..m])
  {
    var t := s[m..];
    forall i | 0 <= i < |t|
      ensures t[i].next == if i + 1 < |t| then t[i + 1] else null
    {
      assert s[m + i].next == if m + i + 1 < |s| then s[m + i + 1] else null;
    }
  }

  ghost predicate Within<T>(s: seq<T>, nodes: set<T>) {
    forall x :: x in s ==> x in nodes
  }

  lemma SplitPass<T>(cmp: Order<T>, out: seq<Node<T>>, rem: seq<Node<T>>, k: nat)
    requires k > 0 && rem != []
    ensures var m, e := Min(k, |rem|), Min(2 * k, |rem|);
      out + Pass(cmp, rem, k) == out + Merge(cmp, rem[..m], rem[m..e]) + Pass(cmp, rem[e..], k)
  {
    var m, e := Min(k, |rem|), Min(2 * k, |rem|);
    Associative(out, Merge(cmp, rem[..m], rem[m..e]), Pass(cmp, rem[e..], k));
  }

  /** The second run, and what comes behind it */
  lemma RestOfRuns<T>(rem: seq<Node<T>>, k: nat)
    requires k > 0 && rem != []
    ensures var m, e := Min(k, |rem|), Min(2 * k, |rem|);
      rem[m..][..Min(k, |rem[m..]|)] == rem[m..e] && rem[m..][Min(k, |rem[m..]|)..] == rem[e..]
  {
    var m, e := Min(k, |rem|), Min(2 * k, |rem|);
    TailOf(rem, m, e);
    assert Min(k, |rem[m..]|) == e - m;
  }

  lemma Associative<X>(a: seq<X>, b: seq<X>, c: seq<X>)
    ensures a + (b + c) == a + b + c
  {
  }

  lemma TailOf<X>(s: seq<X>, m: nat, e: nat)
    requires m <= e <= |s|
    ensures s[m..][..e - m] == s[m..e] && s[m..][e - m..] == s[e..]
  {
  }

  /** Puts e onto the result list; l is the tail pointer to root. */
  method Append<T>(root: Node?<T>, l: Node?<T>, e: Node<T>, ghost out: seq<Node<T>>)
    returns (root': Node<T>, l': Node<T>)
    requires Linked(out) && e !in out && root == First(out) && l == Last(out)
    modifies if l == null then {e} else {l, e}
    ensures Linked(out + [e]) && root' == First(out + [e]) && l' == e
  {
    if l == null {
      root', l' := e, e;
      e.prev, e.next := null, null;
    } else {
      l.next := e;
      e.prev := l;
      e.next := null;
      root', l' := root, e;
    }
  }

  /** Moves the head of one of the two runs to the result list. */
  method Emit<T>(root: Node?<T>, l: Node?<T>, e: Node<T>, ghost out: seq<Node<T>>, ghost ps: seq<Node<T>>,
                 ghost rem: seq<Node<T>>, ghost fromP: bool)
    returns (root': Node<T>, l': Node<T>)
    requires Working(out, ps, rem) && root == First(out) && l == Last(out)
    requires if fromP then ps != [] && e == ps[0] else rem != [] && e == rem[0]
    modifies if l == null then {e} else {l, e}
    ensures Working(out + [e], if fromP then ps[1..] else ps, if fromP then rem else rem[1..])
    ensures root' == First(out + [e]) && l' == e
  {
    ghost var ps', rem' := if fromP then ps[1..] else ps, if fromP then rem else rem[1..];
    if fromP {
      ChainTail(ps);
    } else {
      ForwardTail(rem, 1);
    }
    assert Chain(ps') && Forward(rem');
    assert l != null ==> l in out;
    assert e !in ps' && e !in rem' && (l != null ==> l !in ps' && l !in rem');
    root', l' := Append(root, l, e, out);
    forall i | 0 <= i < |ps'| - 1
      ensures ps'[i].next == ps'[i + 1]
    {
      assert ps'[i] in ps' && old(ps'[i].next) == ps'[i + 1];
    }
    forall i | 0 <= i < |rem'|
      ensures rem'[i].next == if i + 1 < |rem'| then rem'[i + 1] else null
    {
      assert rem'[i] in rem' && old(rem'[i].next) == if i + 1 < |rem'| then rem'[i + 1] else null;
    }
  }

  lemma MergeStep<T>(cmp: Order<T>, out: seq<Node<T>>, ps: seq<Node<T>>, rem: seq<Node<T>>, qsize: nat, fromP: bool)
    requires ps != [] || (qsize > 0 && rem != [])
    requires fromP <==> ps != [] && (qsize == 0 || rem == [] || cmp(ps[0].data, rem[0].data) <= 0)
    ensures out + Merge(cmp, ps, rem[..Min(qsize, |rem|)]) ==
            if fromP then out + [ps[0]] + Merge(cmp, ps[1..], rem[..Min(qsize, |rem|)])
            else out + [rem[0]] + Merge(cmp, ps, rem[1..][..Min(qsize - 1, |rem| - 1)])
    ensures !fromP ==> rem[Min(qsize, |rem|)..] == rem[1..][Min(qsize - 1, |rem| - 1)..]
  {
    var qs := rem[..Min(qsize, |rem|)];
    if fromP {
      MergeUnfold(cmp, ps, qs);
      Associative(out, [ps[0]], Merge(cmp, ps[1..], qs));
    } else {
      TailOf(rem, 1, |qs|);
      assert qs[1..] == rem[1..|qs|];
      MergeUnfold(cmp, ps, qs);
      Associative(out, [rem[0]], Merge(cmp, ps, qs[1..]));
    }
  }

  lemma MergeUnfold<T>(cmp: Order<T>, a: seq<Node<T>>, b: seq<Node<T>>)
    requires a != [] || b != []
    ensures Merge(cmp, a, b) ==
            if a != [] && (b == [] || cmp(a[0].data, b[0].data) <= 0) then [a[0]] + Merge(cmp, a[1..], b)
            else [b[0]] + Merge(cmp, a, b[1..])
  {
    if a == [] {
      assert b == [b[0]] + b[1..];
    } else if b == [] {
      assert a == [a[0]] + a[1..];
    }
  }

  /** Takes the next node from p or from q. */
  method Pick<T>(cmp: Order<T>, p: Node?<T>, q: Node?<T>, psize: nat, qsize: nat, ghost ps: seq<Node<T>>,
                 ghost rem: seq<Node<T>>)
    returns (e: Node<T>, p': Node?<T>, q': Node?<T>, psize': nat, qsize': nat, ghost fromP: bool)
    requires Chain(ps) && Forward(rem) && psize == |ps| && (psize > 0 ==> p == ps[0]) && q == First(rem)
    requires psize > 0 || (qsize > 0 && q != null)
    ensures fromP <==> ps != [] && (qsize == 0 || rem == [] || cmp(ps[0].data, rem[0].data) <= 0)
    ensures fromP ==> e == ps[0] && psize' == psize - 1 && qsize' == qsize && q' == q && (psize' > 0 ==> p' == ps[1])
    ensures !fromP ==> e == rem[0] && psize' == psize && qsize' == qsize - 1 && p' == p && q' == First(rem[1..])
  {
    p', q', psize', qsize' := p, q, psize, qsize;
    fromP := psize > 0 && (qsize <= 0 || q == null || cmp(p.data, q.data) <= 0);
    if psize <= 0 {
      e := q;
      q' := q.next;
      qsize' := qsize - 1;
    } else if qsize <= 0 || q == null {
      e := p;
      p' := p.next;
      psize' := psize - 1;
    } else if cmp(p.data, q.data) <= 0 {
      e := p;
      p' := p.next;
      psize' := psize - 1;
    } else {
      e := q;
      q' := q.next;
      qsize' := qsize - 1;
    }
  }

  /** Where the inner loop stands: out is done, ps is left at p, rem is left at q. */
  ghost predicate Merging<T>(root: Node?<T>, l: Node?<T>, p: Node?<T>, q: Node?<T>, psize: nat, out: seq<Node<T>>,
                             ps: seq<Node<T>>, rem: seq<Node<T>>)
    reads out, ps, rem
  {
    && Working(out, ps, rem) && root == First(out) && l == Last(out)
    && |ps| == psize && (psize > 0 ==> p == ps[0]) && q == First(rem)
  }

  /** What the inner loop will have made of it when q has qsize more nodes to give. */
  ghost function Merged<T>(cmp: Order<T>, out: seq<Node<T>>, ps: seq<Node<T>>, rem: seq<Node<T>>,
                           qsize: nat): seq<Node<T>> {
    out + Merge(cmp, ps, rem[..Min(qsize, |rem|)])
  }

  /** One turn of the inner loop */
  method MergeOne<T>(cmp: Order<T>, root: Node?<T>, l: Node?<T>, p: Node?<T>, q: Node?<T>, psize: nat, qsize: nat,
                     ghost out: seq<Node<T>>, ghost ps: seq<Node<T>>, ghost rem: seq<Node<T>>)
    returns (root': Node?<T>, l': Node?<T>, p': Node?<T>, q': Node?<T>, psize': nat, qsize': nat,
             ghost e: Node<T>, ghost ps': seq<Node<T>>, ghost rem': seq<Node<T>>)
    requires Merging(root, l, p, q, psize, out, ps, rem) && (psize > 0 || (qsize > 0 && q != null))
    modifies (set x | x in out) + (set x | x in ps) + set x | x in rem
    ensures Merging(root', l', p', q', psize', out + [e], ps', rem') && qsize' <= qsize
    ensures Merged(cmp, out + [e], ps', rem', qsize') == Merged(cmp, out, ps, rem, qsize)
    ensures rem'[Min(qsize', |rem'|)..] == rem[Min(qsize, |rem|)..]
    ensures if psize' < psize then e == ps[0] && ps' == ps[1..] && rem' == rem
            else rem != [] && e == rem[0] && ps' == ps && rem' == rem[1..]
  {
    var n: Node<T>;
    ghost var fromP;
    n, p', q', psize', qsize', fromP := Pick(cmp, p, q, psize, qsize, ps, rem);
    MergeStep(cmp, out, ps, rem, qsize, fromP);
    e, ps', rem' := n, if fromP then ps[1..] else ps, if fromP then rem else rem[1..];
    root', l' := Emit(root, l, n, out, ps, rem, fromP);
  }

  /** The inner loop: merges the run at p with the next (at most) k nodes at q. */
  method MergeRuns<T>(cmp: Order<T>, root: Node?<T>, l: Node?<T>, p0: Node?<T>, q0: Node?<T>, psize0: nat, k: nat,
                      ghost out0: seq<Node<T>>, ghost ps0: seq<Node<T>>, ghost rem0: seq<Node<T>>,
                      ghost nodes: set<Node<T>>)
    returns (root': Node?<T>, l': Node?<T>, q: Node?<T>)
    requires Merging(root, l, p0, q0, psize0, out0, ps0, rem0)
    requires Within(out0 + ps0 + rem0, nodes)
    modifies nodes
    ensures Working(Merged(cmp, out0, ps0, rem0, k), [], rem0[Min(k, |rem0|)..])
    ensures root' == First(Merged(cmp, out0, ps0, rem0, k)) && l' == Last(Merged(cmp, out0, ps0, rem0, k))
    ensures q == First(rem0[Min(k, |rem0|)..])
  {
    var p, psize: nat, qsize: nat := p0, psize0, k;
    root', l', q := root, l, q0;
    ghost var out, ps, rem := out0, ps0, rem0;
    while psize > 0 || (qsize > 0 && q != null)
      invariant Merging(root', l', p, q, psize, out, ps, rem)
      invariant Within(out, nodes) && Within(ps, nodes) && Within(rem, nodes)
      invariant Merged(cmp, out, ps, rem, qsize) == Merged(cmp, out0, ps0, rem0, k)
      invariant rem[Min(qsize, |rem|)..] == rem0[Min(k, |rem0|)..]
      decreases psize + |rem|
    {
      ghost var e: Node<T>;
      root', l', p, q, psize, qsize, e, ps, rem := MergeOne(cmp, root', l', p, q, psize, qsize, out, ps, rem);
      out := out + [e];
    }
  }

  /** Steps along the list for k places, or to its end. */
  method StepAlong<T>(p: Node?<T>, k: nat, ghost rem: seq<Node<T>>) returns (q: Node?<T>, i: nat)
    requires Forward(rem) && p == First(rem)
    ensures i == Min(k, |rem|) && q == First(rem[i..])
  {
    q, i := p, 0;
    while i < k && q != null
      invariant i <= k && i <= |rem| && q == First(rem[i..])
    {
      assert rem[i].next == if i + 1 < |rem| then rem[i + 1] else null;
      q := q.next;
      i := i + 1;
    }
  }

  lemma MergeWithin<T>(cmp: Order<T>, rem: seq<Node<T>>, m: nat, e: nat, nodes: set<Node<T>>)
    requires m <= e <= |rem| && Within(rem, nodes)
    ensures Within(Merge(cmp, rem[..m], rem[m..e]), nodes) && Within(rem[e..], nodes)
  {
    MergePermutes(cmp, rem[..m], rem[m..e]);
    assert rem[..m] + rem[m..e] == rem[..e];
    SameElements(Merge(cmp, rem[..m], rem[m..e]), rem[..e], nodes);
  }

  lemma RunsWithin<T>(out: seq<Node<T>>, rem: seq<Node<T>>, m: nat, nodes: set<Node<T>>)
    requires Within(out, nodes) && Within(rem, nodes) && m <= |rem|
    ensures Within(out + rem[..m] + rem[m..], nodes)
  {
  }

  lemma RunsReady<T>(out: seq<Node<T>>, rem: seq<Node<T>>, m: nat)
    requires Working(out, [], rem) && m <= |rem|
    ensures Working(out, rem[..m], rem[m..])
  {
    ForwardTail(rem, m);
  }

  /** Two neighbouring runs at p are merged. */
  method MergeTwo<T>(cmp: Order<T>, root: Node?<T>, l: Node?<T>, p: Node<T>, k: nat, ghost out: seq<Node<T>>,
                     ghost rem: seq<Node<T>>, ghost nodes: set<Node<T>>)
    returns (root': Node?<T>, l': Node?<T>, q: Node?<T>)
    requires k > 0 && Working(out, [], rem) && root == First(out) && l == Last(out) && p == First(rem)
    requires Within(out, nodes) && Within(rem, nodes)
    modifies nodes
    ensures var m, e := Min(k, |rem|), Min(2 * k, |rem|);
      var out' := out + Merge(cmp, rem[..m], rem[m..e]);
      && Working(out', [], rem[e..]) && root' == First(out') && l' == Last(out') && q == First(rem[e..])
      && Within(out', nodes) && Within(rem[e..], nodes)
  {
    hide Merge, Pass;
    var i;
    q, i := StepAlong(p, k, rem);
    ghost var m, e := Min(k, |rem|), Min(2 * k, |rem|);
    SplitPass(cmp, out, rem, k);
    RestOfRuns(rem, k);
    RunsWithin(out, rem, m, nodes);
    RunsReady(out, rem, m);
    MergeWithin(cmp, rem, m, e, nodes);
    root', l', q := MergeRuns(cmp, root, l, p, q, i, k, out, rem[..m], rem[m..], nodes);
  }

  /** One round of the outer loop; n counts the merges it made. */
  method MergePass<T>(cmp: Order<T>, root: Node?<T>, k: nat, ghost s: seq<Node<T>>, ghost nodes: set<Node<T>>)
    returns (root': Node?<T>, n: nat)
    requires k > 0 && Linked(s) && root == First(s) && Within(s, nodes)
    modifies nodes
    ensures Linked(Pass(cmp, s, k)) && root' == First(Pass(cmp, s, k))
    ensures n <= 1 <==> |s| <= 2 * k
  {
    hide Merge, Pass, Within, NoDup, Backward;
    var p := root;
    var l: Node?<T>;
    root', l, n := null, null, 0;
    ghost var out, rem: seq<Node<T>> := [], s;
    Start(s, nodes);
    while p != null
      invariant Working(out, [], rem) && root' == First(out) && l == Last(out) && p == First(rem)
      invariant Within(out, nodes) && Within(rem, nodes)
      invariant out + Pass(cmp, rem, k) == Pass(cmp, s, k)
      invariant n == 0 ==> |rem| == |s|
      invariant n == 1 ==> |rem| == |s| - Min(2 * k, |s|)
      invariant n >= 2 ==> |s| > 2 * k
      decreases |rem|
    {
      n := n + 1;
      ghost var m, e := Min(k, |rem|), Min(2 * k, |rem|);
      SplitPass(cmp, out, rem, k);
      RestOfRuns(rem, k);
      root', l, p := MergeTwo(cmp, root', l, p, k, out, rem, nodes);
      out, rem := out + Merge(cmp, rem[..m], rem[m..e]), rem[e..];
    }
    PassEnds(cmp, out, k);
  }

  lemma Start<T>(s: seq<Node<T>>, nodes: set<Node<T>>)
    requires Linked(s)
    ensures Working([], [], s) && Within<Node<T>>([], nodes)
  {
  }

  lemma PassEnds<T>(cmp: Order<T>, out: seq<Node<T>>, k: nat)
    requires k > 0
    ensures out + Pass(cmp, [], k) == out
  {
  }

  lemma OnePass<T>(cmp: Order<T>, t: seq<Node<T>>, k: nat, nodes: set<Node<T>>)
    requires k > 0 && Within(t, nodes)
    ensures |Pass(cmp, t, k)| == |t| && Within(Pass(cmp, t, k), nodes)
    ensures BottomUp(cmp, t, k) == if |t| <= 2 * k then Pass(cmp, t, k) else BottomUp(cmp, Pass(cmp, t, k), k * 2)
  {
    PassPermutes(cmp, t, k);
    SameElements(Pass(cmp, t, k), t, nodes);
  }

  /** sort_List: links are rebuilt pass by pass until one merge covers the list. */
  method Sort<T>(cmp: Order<T>, root: Node?<T>, ghost s: seq<Node<T>>) returns (root': Node?<T>)
    requires Linked(s) && root == First(s)
    modifies s
    ensures Linked(BottomUp(cmp, s, 1)) && root' == First(BottomUp(cmp, s, 1))
  {
    root' := root;
    if root' == null {
      return;
    }
    var k: nat := 1;
    ghost var t, nodes := s, set x | x in s;
    while true
      invariant k > 0 && Linked(t) && root' == First(t)
      invariant Within(t, nodes)
      invariant BottomUp(cmp, t, k) == BottomUp(cmp, s, 1)
      decreases |t| - k
    {
      var n: nat;
      root', n := MergePass(cmp, root', k, t, nodes);
      OnePass(cmp, t, k, nodes);
      t := Pass(cmp, t, k);
      if n <= 1 {
        return;
      }
      k := k * 2;
    }
  }
}
