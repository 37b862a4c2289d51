/** src/Timer.c in place: a timer is a list node whose Clock holds the fields behind the links. */
module Timer {
  import opened Common
  import opened List
  import opened TimerQueue

  class Clock {
    var sleeptime: int
    var maxtime: int
    var restart: int

    /** new_Timer */
    constructor (s: int, restart: int)
      ensures sleeptime == maxtime == s && this.restart == restart
    {
      sleeptime, maxtime, this.restart := s, s, restart;
    }
  }

  type Timer = Node<Clock>

  ghost function Clocks(s: seq<Timer>): set<Clock> {
    set i | 0 <= i < |s| :: s[i].data
  }

  /** No two timers share their fields. */
  ghost predicate OwnClocks(s: seq<Timer>) {
    forall i, j :: 0 <= i < j < |s| ==> s[i].data != s[j].data
  }

  ghost function Read(t: Timer): Armed<Timer>
    reads t.data
  {
    Armed(t, t.data.sleeptime, t.data.maxtime, t.data.restart)
  }

  /** What the list says. */
  ghost function Contents(s: seq<Timer>): (q: seq<Armed<Timer>>)
    reads Clocks(s)
    ensures |q| == |s| && forall i :: 0 <= i < |s| ==> q[i] == Read(s[i])
  {
    seq(|s|, i requires 0 <= i < |s| reads Clocks(s) => Read(s[i]))
  }

  ghost predicate TimerList(queue: Node?<Clock>, s: seq<Timer>)
    reads s
  {
    Linked(s) && queue == First(s) && OwnClocks(s)
  }

  /** Links t before q, or behind q_prev if there is no q. */
  method LinkIn(queue: Node?<Clock>, t: Timer, q: Node?<Clock>, q_prev: Node?<Clock>, ghost s: seq<Timer>, ghost k: nat)
    returns (queue': Timer)
    requires Linked(s) && queue == First(s) && t !in s && k <= |s|
    requires q == (if k < |s| then s[k] else null) && q_prev == (if k > 0 then s[k - 1] else null)
    requires t.prev == null && t.next == null
    modifies s, t
    ensures Linked(At(s, k, t)) && queue' == First(At(s, k, t))
  {
    hide Insert;
    queue' := t;
    if queue == null {
      return;
    }
    if q != null {
      t.next := q;
      t.prev := q.prev;
      if q.prev != null {
        q.prev.next := t;
      }
      q.prev := t;
      if t.prev != null {
        queue' := queue;
      }
    } else {
      q_prev.next := t;
      t.prev := q_prev;
      queue' := queue;
    }
  }

  /** The search of add_Timer: t's sleeptime is counted down along the way. */
  method FindPlace(queue: Node?<Clock>, t: Timer, ghost s: seq<Timer>, ghost c: seq<Armed<Timer>>,
                   ghost a: Armed<Timer>)
    returns (q: Node?<Clock>, q_prev: Node?<Clock>, ghost k: nat)
    requires TimerList(queue, s) && OwnClocks(s + [t]) && Contents(s) == c && Read(t) == a
    modifies t.data`sleeptime
    ensures k <= |s| && q == (if k < |s| then s[k] else null) && q_prev == (if k > 0 then s[k - 1] else null)
    ensures Contents(s) == c && k == Place(c, a.delta) && Insert(c, a) == c[..k] + Insert(c[k..], Read(t))
    ensures q != null ==> q.data.sleeptime >= t.data.sleeptime
  {
    hide Insert, Place, OwnClocks, Searched;
    q, q_prev, k := queue, null, 0;
    SearchBegins(c, a);
    while q != null && q.data.sleeptime < t.data.sleeptime
      invariant k <= |s| && q == (if k < |s| then s[k] else null) && q_prev == (if k > 0 then s[k - 1] else null)
      invariant Contents(s) == c && Searched(c, a, k, Read(t))
      decreases |s| - k
    {
      assert s[k].next == if k + 1 < |s| then s[k + 1] else null;
      SearchGoesOn(c, a, k, Read(t));
      CountDown(s, t, q.data.sleeptime);
      q_prev := q;
      q := q.next;
      k := k + 1;
    }
    SearchEnds(c, a, k, Read(t));
  }

  /** Of the search for a place for a, k steps have been done, and b is what is left of a. */
  ghost predicate Searched(c: seq<Armed<Timer>>, a: Armed<Timer>, k: nat, b: Armed<Timer>) {
    && k <= |c| && Insert(c, a) == c[..k] + Insert(c[k..], b) && Place(c, a.delta) == k + Place(c[k..], b.delta)
  }

  lemma SearchBegins(c: seq<Armed<Timer>>, a: Armed<Timer>)
    ensures Searched(c, a, 0, a)
  {
    hide Insert, Place;
    assert c[0..] == c && c[..0] + Insert(c, a) == Insert(c, a);
  }

  lemma SearchGoesOn(c: seq<Armed<Timer>>, a: Armed<Timer>, k: nat, b: Armed<Timer>)
    requires Searched(c, a, k, b) && k < |c| && c[k].delta < b.delta
    ensures Searched(c, a, k + 1, Less(b, c[k].delta))
  {
    hide Insert, Place;
    InsertBehind(c, k, b);
  }

  lemma {:induction false} SearchEnds(c: seq<Armed<Timer>>, a: Armed<Timer>, k: nat, b: Armed<Timer>)
    requires Searched(c, a, k, b) && (k == |c| || c[k].delta >= b.delta)
    ensures k == Place(c, a.delta) && Insert(c, a) == c[..k] + Insert(c[k..], b)
  {
    hide Insert;
  }

  method CountDown(ghost s: seq<Timer>, t: Timer, d: int)
    requires OwnClocks(s + [t])
    modifies t.data`sleeptime
    ensures Read(t) == Less(old(Read(t)), d) && Contents(s) == old(Contents(s))
  {
    NotShared(s, t);
    t.data.sleeptime := t.data.sleeptime - d;
    assert forall i :: 0 <= i < |s| ==> Read(s[i]) == old(Read(s[i]));
  }

  lemma NotShared(s: seq<Timer>, t: Timer)
    requires OwnClocks(s + [t])
    ensures OwnClocks(s) && forall i :: 0 <= i < |s| ==> s[i].data != t.data
  {
    var u := s + [t];
    forall i | 0 <= i < |s|
      ensures s[i].data != t.data
    {
      assert u[i].data != u[|s|].data;
    }
    assert forall i :: 0 <= i < |s| ==> s[i] == u[i];
  }

  lemma {:induction false} InsertBehind<T>(c: seq<Armed<T>>, k: nat, a: Armed<T>)
    requires k < |c| && c[k].delta < a.delta
    ensures var b := Less(a, c[k].delta);
      && c[..k] + Insert(c[k..], a) == c[..k + 1] + Insert(c[k + 1..], b)
      && k + Place(c[k..], a.delta) == k + 1 + Place(c[k + 1..], b.delta)
  {
    assert c[k..][1..] == c[k + 1..];
  }

  /** The timer that follows now counts from t. */
  method CountFrom(q: Timer, t: Timer, ghost s: seq<Timer>, ghost k: nat)
    requires OwnClocks(s + [t]) && k < |s| && s[k] == q
    modifies q.data`sleeptime
    ensures Read(t) == old(Read(t)) && Contents(s) == old(Contents(s))[k := Less(old(Contents(s))[k], t.data.sleeptime)]
  {
    NotShared(s, t);
    q.data.sleeptime := q.data.sleeptime - t.data.sleeptime;
    assert forall i :: 0 <= i < |s| && i != k ==> Read(s[i]) == old(Read(s[i]));
  }

  lemma {:induction false} InsertHere<T>(c: seq<Armed<T>>, k: nat, a: Armed<T>)
    requires k <= |c| && (k < |c| ==> c[k].delta >= a.delta)
    ensures c[..k] + Insert(c[k..], a) == At(if k < |c| then c[k := Less(c[k], a.delta)] else c, k, a)
  {
  }

  lemma ContentsAt(s: seq<Timer>, k: nat, t: Timer)
    requires k <= |s|
    ensures Contents(At(s, k, t)) == At(Contents(s), k, Read(t))
  {
  }

  lemma OwnClocksAt(s: seq<Timer>, k: nat, t: Timer)
    requires k <= |s| && OwnClocks(s + [t])
    ensures OwnClocks(At(s, k, t))
  {
    var u, v := At(s, k, t), s + [t];
    forall i, j | 0 <= i < j < |u|
      ensures u[i].data != u[j].data
    {
      assert u[i] == v[if i < k then i else if i == k then |s| else i - 1];
      assert u[j] == v[if j < k then j else if j == k then |s| else j - 1];
    }
  }

  /** Puts t before q and counts q from it, or behind q_prev if there is no q. */
  method PutIn(queue: Node?<Clock>, t: Timer, q: Node?<Clock>, q_prev: Node?<Clock>, ghost s: seq<Timer>, ghost k: nat)
    returns (queue': Timer)
    requires TimerList(queue, s) && t !in s && OwnClocks(s + [t]) && k <= |s| && t.prev == null && t.next == null
    requires q == (if k < |s| then s[k] else null) && q_prev == (if k > 0 then s[k - 1] else null)
    requires q != null ==> q.data.sleeptime >= t.data.sleeptime
    modifies s, t, Clocks(s)
    ensures TimerList(queue', At(s, k, t))
    ensures Contents(At(s, k, t)) == old(Contents(s)[..k] + Insert(Contents(s)[k..], Read(t)))
  {
    hide Insert, Place, At;
    InsertHere(Contents(s), k, Read(t));
    if q != null {
      CountFrom(q, t, s, k);
    }
    queue' := LinkIn(queue, t, q, q_prev, s, k);
    ContentsAt(s, k, t);
    OwnClocksAt(s, k, t);
  }

  /** add_Timer */
  method AddTimer(queue: Node?<Clock>, t: Timer, ghost s: seq<Timer>) returns (queue': Timer, ghost k: nat)
    requires TimerList(queue, s) && t !in s && OwnClocks(s + [t])
    modifies s, t, Clocks(s), t.data
    ensures k <= |s| && TimerList(queue', At(s, k, t))
    ensures var a := old(Read(t)).(delta := Max(old(t.data.sleeptime), 0));
      Contents(At(s, k, t)) == Insert(old(Contents(s)), a) && k == Place(old(Contents(s)), a.delta)
  {
    hide Insert, Place, NoDup, OwnClocks;
    Clamp(t, s);
    t.prev, t.next := null, null;
    ghost var c, a := Contents(s), Read(t);
    var q, q_prev;
    q, q_prev, k := FindPlace(queue, t, s, c, a);
    queue' := PutIn(queue, t, q, q_prev, s, k);
  }

  method Clamp(t: Timer, ghost s: seq<Timer>)
    requires OwnClocks(s + [t])
    modifies t.data`sleeptime
    ensures Read(t) == old(Read(t)).(delta := Max(old(t.data.sleeptime), 0)) && Contents(s) == old(Contents(s))
  {
    if t.data.sleeptime < 0 {
      CountDown(s, t, t.data.sleeptime);
    }
  }

  lemma OwnClocksOthers(s: seq<Timer>, k: nat)
    requires k < |s| && OwnClocks(s) && NoDup(s)
    ensures OwnClocks(Others(s, k)) && OwnClocks(Others(s, k) + [s[k]]) && s[k] !in Others(s, k)
  {
    var u := Others(s, k) + [s[k]];
    forall i, j | 0 <= i < j < |u|
      ensures u[i].data != u[j].data
    {
      assert u[i] == s[if i < k then i else i + 1];
      assert u[j] == s[if j == |s| - 1 then k else if j < k then j else j + 1];
    }
    assert forall i :: 0 <= i < |s| - 1 ==> u[i] == Others(s, k)[i];
  }

  lemma TakenOut(c: seq<Armed<Timer>>, k: nat, d: int)
    requires k < |c|
    ensures TakeOut(c, k, d) == Others(if d > 0 && k + 1 < |c| then c[k + 1 := Less(c[k + 1], -d)] else c, k)
  {
  }

  /** The first half of remove_Timer: what t had left goes to the next timer. */
  method HandOver(t: Timer, ghost s: seq<Timer>, ghost k: nat)
    requires Forward(s) && OwnClocks(s) && k < |s| && s[k] == t
    modifies Clocks(s)`sleeptime
    ensures Others(Contents(s), k) == TakeOut(old(Contents(s)), k, t.data.sleeptime) && Read(t) == old(Read(t))
  {
    hide OwnClocks, TakeOut, Others;
    assert t.next == if k + 1 < |s| then s[k + 1] else null;
    TakenOut(Contents(s), k, t.data.sleeptime);
    if t.data.sleeptime > 0 && t.next != null {
      PassOn(t, t.next, s, k);
    }
  }

  /** remove_Timer: t stands at place k. */
  method RemoveTimer(queue: Node?<Clock>, t: Timer, ghost s: seq<Timer>, ghost k: nat) returns (queue': Node?<Clock>)
    requires TimerList(queue, s) && k < |s| && s[k] == t
    modifies s, Clocks(s)
    ensures TimerList(queue', Others(s, k)) && t !in Others(s, k) && OwnClocks(Others(s, k) + [t])
    ensures Contents(Others(s, k)) == TakeOut(old(Contents(s)), k, t.data.sleeptime)
    ensures Read(t) == old(Read(t))
  {
    hide OwnClocks, TakeOut, NoDup;
    OwnClocksOthers(s, k);
    HandOver(t, s, k);
    queue' := List.Remove(queue, t, s, k);
    ContentsOthers(s, k);
  }

  lemma ContentsOthers(s: seq<Timer>, k: nat)
    requires k < |s|
    ensures Contents(Others(s, k)) == Others(Contents(s), k)
  {
  }

  /** The next timer now counts from the one before t. */
  method PassOn(t: Timer, next: Timer, ghost s: seq<Timer>, ghost k: nat)
    requires OwnClocks(s) && k + 1 < |s| && s[k] == t && s[k + 1] == next
    modifies next.data`sleeptime
    ensures Contents(s) == old(Contents(s))[k + 1 := Less(old(Contents(s))[k + 1], -t.data.sleeptime)]
    ensures Read(t) == old(Read(t))
  {
    next.data.sleeptime := next.data.sleeptime + t.data.sleeptime;
    assert forall i :: 0 <= i < |s| && i != k + 1 ==> s[i].data != s[k + 1].data;
    assert forall i :: 0 <= i < |s| && i != k + 1 ==> Read(s[i]) == old(Read(s[i]));
  }

  /** set_Timer: the new sleeptime is written before the timer is taken out. */
  method SetTimer(queue: Node?<Clock>, t: Timer, sleeptime: int, ghost s: seq<Timer>, ghost k: nat)
    returns (queue': Timer, ghost j: nat)
    requires TimerList(queue, s) && k < |s| && s[k] == t
    modifies s, Clocks(s)
    ensures j <= |Others(s, k)| && TimerList(queue', At(Others(s, k), j, t))
    ensures Contents(At(Others(s, k), j, t)) == Reset(old(Contents(s)), k, sleeptime)
    ensures j == ResetPlace(old(Contents(s)), k, sleeptime)
  {
    WriteSleeptime(t, sleeptime, s, k);
    ResetOverwritten(old(Contents(s)), k, sleeptime);
    var rest := RemoveTimer(queue, t, s, k);
    queue', j := AddTimer(rest, t, Others(s, k));
  }

  method WriteSleeptime(t: Timer, sleeptime: int, ghost s: seq<Timer>, ghost k: nat)
    requires OwnClocks(s) && k < |s| && s[k] == t
    modifies t.data`sleeptime
    ensures t.data.sleeptime == sleeptime
    ensures Contents(s) == old(Contents(s))[k := old(Contents(s))[k].(delta := sleeptime)]
  {
    t.data.sleeptime := sleeptime;
    assert forall i :: 0 <= i < |s| && i != k ==> s[i].data != s[k].data;
    assert forall i :: 0 <= i < |s| && i != k ==> Read(s[i]) == old(Read(s[i]));
  }

  lemma ResetOverwritten<T>(c: seq<Armed<T>>, k: nat, d: int)
    requires k < |c|
    ensures TakeOut(c[k := c[k].(delta := d)], k, d) == TakeOut(c, k, d)
  {
  }

  /** remove_Timer on a timer that is due: nobody's delta changes. */
  method TakeDue(queue: Node?<Clock>, t: Timer, ghost s: seq<Timer>, ghost k: nat) returns (queue': Node?<Clock>)
    requires TimerList(queue, s) && k < |s| && s[k] == t && t.data.sleeptime <= 0
    modifies s, Clocks(s)
    ensures TimerList(queue', Others(s, k)) && t !in Others(s, k) && OwnClocks(Others(s, k) + [t])
    ensures Contents(Others(s, k)) == Others(old(Contents(s)), k) && Read(t) == old(Read(t))
  {
    hide NoDup, OwnClocks;
    queue' := RemoveTimer(queue, t, s, k);
  }

  /** t, which is in no queue now, gets its sleeptime back and one restart less; if that leaves it any, it is put
      in again. The action itself is not part of this model. */
  method FireTimer(queue: Node?<Clock>, t: Timer, ghost s: seq<Timer>) returns (queue': Node?<Clock>, ghost k: nat)
    requires TimerList(queue, s) && t !in s && OwnClocks(s + [t])
    modifies s, t, Clocks(s), t.data
    ensures var a, c := Again(old(Read(t))), old(Contents(s));
      if a.restart == 0 then TimerList(queue', s) && Contents(s) == c
      else && k <= |s| && TimerList(queue', At(s, k, t))
           && Contents(At(s, k, t)) == Insert(c, a) && k == Place(c, a.delta)
  {
    queue', k := queue, 0;
    NotShared(s, t);
    t.data.sleeptime := t.data.maxtime;
    if t.data.restart > 0 {
      t.data.restart := t.data.restart - 1;
    }
    assert forall i :: 0 <= i < |s| ==> Read(s[i]) == old(Read(s[i]));
    assert Contents(s) == old(Contents(s));
    if t.data.restart != 0 {
      queue', k := AddTimer(queue, t, s);
    }
  }

  lemma ContentsConcat(s: seq<Timer>, t: seq<Timer>)
    ensures Contents(s + t) == Contents(s) + Contents(t)
  {
  }

  lemma ContentsSlices(s: seq<Timer>, m: nat)
    requires m <= |s|
    ensures Contents(s[..m]) == Contents(s)[..m] && Contents(s[m..]) == Contents(s)[m..]
  {
  }

  /** remove_Timer, and then the timer is destroyed or put in again. */
  method TakeAndFire(queue: Node?<Clock>, t: Timer, ghost done: seq<Timer>, ghost rest: seq<Timer>)
    returns (queue': Node?<Clock>, ghost all: seq<Timer>)
    requires TimerList(queue, done + [t] + rest) && t.data.sleeptime <= 0
    modifies done + [t] + rest, Clocks(done + [t] + rest)
    ensures TimerList(queue', all) && forall x :: x in all ==> x in done + [t] + rest
    ensures var a, c := Again(old(Read(t))), old(Contents(done + rest));
      if a.restart == 0 then all == done + rest && Contents(all) == c
      else && Contents(all) == Insert(c, a)
           && all == At(done + rest, Place(c, a.delta), t)
  {
    hide OwnClocks;
    ghost var s, k0 := done + [t] + rest, |done|;
    assert s[k0] == t && Others(s, k0) == done + rest;
    ContentsOthers(s, k0);
    queue' := TakeDue(queue, t, s, k0);
    ghost var k;
    queue', k := FireTimer(queue', t, done + rest);
    all := if Restarts(old(t.data.restart)) == 0 then done + rest else At(done + rest, k, t);
  }

  ghost predicate Inside(s: seq<Timer>, nodes: set<Timer>, clocks: set<Clock>) {
    forall x :: x in s ==> x in nodes && x.data in clocks
  }

  lemma InsideSets(s: seq<Timer>, nodes: set<Timer>, clocks: set<Clock>)
    requires Inside(s, nodes, clocks)
    ensures (set x | x in s) <= nodes && Clocks(s) <= clocks
  {
  }

  /** The first timer of todo fires; t_next is the one that the loop looks at after that. */
  method FireFirst(queue: Node?<Clock>, t: Timer, ghost done: seq<Timer>, ghost todo: seq<Timer>,
                   ghost nodes: set<Timer>, ghost clocks: set<Clock>)
    returns (queue': Node?<Clock>, t_next: Node?<Clock>, ghost all: seq<Timer>)
    requires TimerList(queue, done + todo) && todo != [] && t == todo[0] && t.data.sleeptime <= 0
    requires Inside(done + todo, nodes, clocks)
    modifies nodes, clocks
    ensures TimerList(queue', all) && Inside(all, nodes, clocks)
    ensures var c, d := old(Contents(done)), old(Contents(todo));
      && Contents(all) == AfterTurn(c, d) && NextPlace(c, d) <= |all| && t_next == First(all[NextPlace(c, d)..])
  {
    hide OwnClocks, Insert;
    ghost var c, d, rest := Contents(done), Contents(todo), todo[1..];
    assert done + todo == done + [t] + rest;
    NextOf(done, todo);
    t_next := t.next;
    assert Contents(rest) == d[1..];
    ContentsConcat(done, rest);
    InsideSets(done + [t] + rest, nodes, clocks);
    FirstAfterTurn(done, rest, t, c, d);
    queue', all := TakeAndFire(queue, t, done, rest);
  }

  /** One turn of the loop in update_timerqueue, for a timer that is due. */
  method SweepOne(queue: Node?<Clock>, t: Timer, ghost done: seq<Timer>, ghost todo: seq<Timer>,
                  ghost nodes: set<Timer>, ghost clocks: set<Clock>)
    returns (queue': Node?<Clock>, t_next: Node?<Clock>, ghost done': seq<Timer>, ghost todo': seq<Timer>)
    requires TimerList(queue, done + todo) && todo != [] && t == todo[0] && t.data.sleeptime <= 0
    requires Inside(done + todo, nodes, clocks)
    modifies nodes, clocks
    ensures TimerList(queue', done' + todo') && t_next == First(todo')
    ensures Inside(done' + todo', nodes, clocks)
    ensures old(Sweep(Contents(done), Contents(todo))) == Also(t, Sweep(Contents(done'), Contents(todo')))
    ensures |todo'| <= |todo| && (|todo'| == |todo| ==> Leading(Contents(todo')) < old(Leading(Contents(todo))))
  {
    hide Sweep, OwnClocks, Leading, NextPlace, AfterTurn, Inside;
    ghost var c, d := Contents(done), Contents(todo);
    TurnTaken(c, d);
    ghost var all;
    queue', t_next, all := FireFirst(queue, t, done, todo, nodes, clocks);
    ghost var m := NextPlace(c, d);
    done', todo' := all[..m], all[m..];
    assert all == done' + todo';
    ContentsSlices(all, m);
  }

  lemma FirstAfterTurn(done: seq<Timer>, rest: seq<Timer>, t: Timer, c: seq<Armed<Timer>>, d: seq<Armed<Timer>>)
    requires |c| == |done| && |d| == |rest| + 1
    ensures var a, m := Again(d[0]), NextPlace(c, d);
      var all := if a.restart == 0 then done + rest else At(done + rest, Place(c + d[1..], a.delta), t);
      m <= |all| && First(all[m..]) == First(rest)
  {
    hide Insert, Place;
    if Again(d[0]).restart == 0 {
      assert (done + rest)[|done|..] == rest;
    } else {
      FirstAfterCut(done, rest, t, Place(c + d[1..], Again(d[0]).delta), NextPlace(c, d));
    }
  }

  lemma FirstAfterCut(done: seq<Timer>, rest: seq<Timer>, t: Timer, k: nat, m: nat)
    requires k <= |done + rest| && m == if rest == [] || k <= |done| then |done| + 1 else |done|
    ensures First(At(done + rest, k, t)[m..]) == First(rest)
  {
  }

  lemma NextOf(done: seq<Timer>, todo: seq<Timer>)
    requires Linked(done + todo) && todo != []
    ensures todo[0].next == First(todo[1..])
  {
    assert todo[0] == (done + todo)[|done|];
  }

  lemma ElapseNothing<T>(q: seq<Armed<T>>)
    ensures Elapse(q, 0) == q
  {
    if q != [] {
      assert q == [q[0]] + q[1..];
    }
  }

  /** The time that has passed is taken off the first timer. */
  method Elapsed(t: Timer, tdiff: int, ghost s: seq<Timer>)
    requires OwnClocks(s) && s != [] && t == s[0]
    modifies t.data`sleeptime
    ensures Contents(s) == Elapse(old(Contents(s)), tdiff)
  {
    ghost var c := Contents(s);
    if tdiff > 0 {
      WriteSleeptime(t, t.data.sleeptime - tdiff, s, 0);
    }
    ElapseNothing(c);
  }

  /** The loop of update_timerqueue */
  method SweepAll(queue: Node?<Clock>, ghost s: seq<Timer>)
    returns (queue': Node?<Clock>, fired: seq<Timer>, ghost s': seq<Timer>)
    requires TimerList(queue, s)
    modifies s, Clocks(s)
    ensures TimerList(queue', s') && Outcome(Contents(s'), fired) == old(Sweep([], Contents(s)))
  {
    queue', fired := queue, [];
    var t := queue;
    ghost var done, todo: seq<Timer> := [], s;
    assert done + todo == s && Contents(done) == [];
    ghost var result, clocks, nodes := Sweep([], Contents(s)), Clocks(s), set x | x in s;
    while t != null && t.data.sleeptime <= 0
      invariant TimerList(queue', done + todo) && t == First(todo) && Inside(done + todo, nodes, clocks)
      invariant result == Fired(fired, Sweep(Contents(done), Contents(todo)))
      decreases |todo|, Leading(Contents(todo))
      modifies nodes, clocks
    {
      var t0: Timer := t;
      queue', t, done, todo := SweepOne(queue', t, done, todo, nodes, clocks);
      FiredMore(fired, t0, Sweep(Contents(done), Contents(todo)));
      fired := fired + [t0];
    }
    s' := done + todo;
    ContentsConcat(done, todo);
  }

  /** update_timerqueue; returns what has fired, in order. */
  method UpdateTimerQueue(queue: Node?<Clock>, tdiff: int, ghost s: seq<Timer>)
    returns (queue': Node?<Clock>, fired: seq<Timer>, ghost s': seq<Timer>)
    requires TimerList(queue, s)
    modifies s, Clocks(s)
    ensures TimerList(queue', s') && Outcome(Contents(s'), fired) == old(Update(Contents(s), tdiff))
  {
    if queue != null {
      Elapsed(queue, tdiff, s);
    }
    queue', fired, s' := SweepAll(queue, s);
  }

  ghost function Fired<T>(fired: seq<T>, r: Outcome<T>): Outcome<T> {
    Outcome(r.queue, fired + r.fired)
  }

  lemma FiredMore<T>(fired: seq<T>, t: T, r: Outcome<T>)
    ensures Fired(fired, Also(t, r)) == Fired(fired + [t], r)
  {
  }
}
