/** The timer queue of src/Timer.c as a value. Each timer's delta counts from the timer before it; Deadlines
    gives the times this stands for, and the lemmas say what every operation does to them. */
module TimerQueue {
  import opened Common

  datatype Armed<T> = Armed(timer: T, delta: int, maxtime: int, restart: int)

  /** The timer will fire at this time. */
  datatype Due<T> = Due(timer: T, when: int)

  ghost function Deadlines<T>(q: seq<Armed<T>>, base: int): (r: seq<Due<T>>)
    ensures |r| == |q|
  {
    if q == [] then [] else [Due(q[0].timer, base + q[0].delta)] + Deadlines(q[1..], base + q[0].delta)
  }

  ghost predicate NonNegative<T>(q: seq<Armed<T>>) {
    forall i :: 0 <= i < |q| ==> q[i].delta >= 0
  }

  function Max(a: int, b: int): int {
    if a > b then a else b
  }

  lemma {:induction false} DeadlinesRise<T>(q: seq<Armed<T>>, base: int)
    requires NonNegative(q)
    ensures forall i :: 0 <= i < |q| ==> Deadlines(q, base)[i].when >= base
    ensures forall i, j :: 0 <= i < j < |q| ==> Deadlines(q, base)[i].when <= Deadlines(q, base)[j].when
  {
    if q != [] {
      DeadlinesRise(q[1..], base + q[0].delta);
    }
  }

  lemma {:induction false} DeadlinesCons<T>(a: Armed<T>, q: seq<Armed<T>>, base: int)
    ensures Deadlines([a] + q, base) == [Due(a.timer, base + a.delta)] + Deadlines(q, base + a.delta)
  {
    assert ([a] + q)[1..] == q;
  }

  // ---------------------------------------------------------------- add_Timer

  ghost function Less<T>(a: Armed<T>, d: int): Armed<T> {
    a.(delta := a.delta - d)
  }

  /** The queue after timer a has been put in, which sleeps for a.delta >= 0. */
  ghost function Insert<T>(q: seq<Armed<T>>, a: Armed<T>): seq<Armed<T>> {
    if q == [] then [a]
    else if q[0].delta >= a.delta then [a, Less(q[0], a.delta)] + q[1..]
    else [q[0]] + Insert(q[1..], Less(a, q[0].delta))
  }

  /** The place a timer gets that sleeps for s. */
  ghost function Place<T>(q: seq<Armed<T>>, s: int): (k: nat)
    ensures k <= |q|
  {
    if q == [] || q[0].delta >= s then 0 else 1 + Place(q[1..], s - q[0].delta)
  }

  /** x in front of the k-th element */
  ghost function At<X>(r: seq<X>, k: nat, x: X): seq<X>
    requires k <= |r|
  {
    r[..k] + [x] + r[k..]
  }

  lemma AtCons<X>(r: seq<X>, k: nat, x: X)
    requires 0 < k <= |r|
    ensures At(r, k, x) == [r[0]] + At(r[1..], k - 1, x)
  {
  }

  lemma {:induction false} InsertFirst<T>(q: seq<Armed<T>>, a: Armed<T>, base: int)
    requires q != [] && q[0].delta >= a.delta
    ensures Deadlines(Insert(q, a), base) == [Due(a.timer, base + a.delta)] + Deadlines(q, base)
  {
    assert Insert(q, a) == [a] + ([Less(q[0], a.delta)] + q[1..]);
    DeadlinesCons(a, [Less(q[0], a.delta)] + q[1..], base);
    DeadlinesCons(Less(q[0], a.delta), q[1..], base + a.delta);
  }

  /** The timer is due after exactly its sleeptime, and no other deadline changes. */
  lemma {:induction false} InsertDeadlines<T>(q: seq<Armed<T>>, a: Armed<T>, base: int)
    ensures Deadlines(Insert(q, a), base) == At(Deadlines(q, base), Place(q, a.delta), Due(a.timer, base + a.delta))
  {
    if q == [] {
    } else if q[0].delta >= a.delta {
      InsertFirst(q, a, base);
    } else {
      InsertDeadlines(q[1..], Less(a, q[0].delta), base + q[0].delta);
      DeadlinesCons(q[0], Insert(q[1..], Less(a, q[0].delta)), base);
      AtCons(Deadlines(q, base), Place(q, a.delta), Due(a.timer, base + a.delta));
    }
  }

  /** The first k are due before the given time, the others are not. */
  ghost predicate Splits<T>(r: seq<Due<T>>, k: nat, when: int) {
    && k <= |r|
    && (forall i :: 0 <= i < k ==> r[i].when < when) && (forall i :: k <= i < |r| ==> r[i].when >= when)
  }

  /** It comes behind the timers that are due earlier, and ahead of all others. */
  lemma {:induction false} InsertPlace<T>(q: seq<Armed<T>>, s: int, base: int)
    requires NonNegative(q)
    ensures Splits(Deadlines(q, base), Place(q, s), base + s)
  {
    if q == [] {
    } else if q[0].delta >= s {
      DeadlinesRise(q[1..], base + q[0].delta);
    } else {
      InsertPlace(q[1..], s - q[0].delta, base + q[0].delta);
    }
  }

  lemma {:induction false} InsertNonNegative<T>(q: seq<Armed<T>>, a: Armed<T>)
    requires NonNegative(q) && a.delta >= 0
    ensures NonNegative(Insert(q, a))
  {
    if q != [] && q[0].delta < a.delta {
      InsertNonNegative(q[1..], Less(a, q[0].delta));
    }
  }

  // ---------------------------------------------------------------- remove_Timer

  /** The queue without timer k, whose own sleeptime field reads d. */
  ghost function TakeOut<T>(q: seq<Armed<T>>, k: nat, d: int): seq<Armed<T>>
    requires k < |q|
  {
    if k + 1 < |q| then q[..k] + [Less(q[k + 1], -Max(d, 0))] + q[k + 2..] else q[..k]
  }

  lemma TakeOutCons<T>(q: seq<Armed<T>>, k: nat, d: int)
    requires 0 < k < |q|
    ensures TakeOut(q, k, d) == [q[0]] + TakeOut(q[1..], k - 1, d)
  {
  }

  ghost function Shifted<T>(r: seq<Due<T>>, shift: int): (t: seq<Due<T>>)
    ensures |t| == |r| && forall i :: 0 <= i < |r| ==> t[i] == Due(r[i].timer, r[i].when + shift)
  {
    seq(|r|, i requires 0 <= i < |r| => Due(r[i].timer, r[i].when + shift))
  }

  lemma {:induction false} DeadlinesShift<T>(q: seq<Armed<T>>, base: int, shift: int)
    ensures Deadlines(q, base + shift) == Shifted(Deadlines(q, base), shift)
  {
    if q != [] {
      DeadlinesShift(q[1..], base + q[0].delta, shift);
    }
  }

  /** What is left of the deadlines r without the k-th, when those behind it shift. */
  ghost function WithoutTimer<T>(r: seq<Due<T>>, k: nat, shift: int): (t: seq<Due<T>>)
    requires k < |r|
    ensures |t| == |r| - 1
  {
    r[..k] + Shifted(r[k + 1..], shift)
  }

  lemma WithoutCons<T>(r: seq<Due<T>>, k: nat, shift: int)
    requires 0 < k < |r|
    ensures WithoutTimer(r, k, shift) == [r[0]] + WithoutTimer(r[1..], k - 1, shift)
  {
    assert r[1..][k..] == r[k + 1..];
  }

  /** The timers behind it shift by Max(d, 0) minus its delta: not at all if d is that delta and not negative. */
  lemma {:induction false} TakeOutDeadlines<T>(q: seq<Armed<T>>, k: nat, d: int, base: int)
    requires k < |q|
    ensures Deadlines(TakeOut(q, k, d), base) == WithoutTimer(Deadlines(q, base), k, Max(d, 0) - q[k].delta)
  {
    hide WithoutTimer;
    if k > 0 {
      TakeOutDeadlines(q[1..], k - 1, d, base + q[0].delta);
      TakeOutCons(q, k, d);
      DeadlinesCons(q[0], TakeOut(q[1..], k - 1, d), base);
      WithoutCons(Deadlines(q, base), k, Max(d, 0) - q[k].delta);
      assert Deadlines(q, base)[1..] == Deadlines(q[1..], base + q[0].delta);
    } else if |q| > 1 {
      TakeOutFirst(q, d, base);
    }
  }

  lemma {:induction false} TakeOutFirst<T>(q: seq<Armed<T>>, d: int, base: int)
    requires |q| > 1
    ensures Deadlines(TakeOut(q, 0, d), base) == WithoutTimer(Deadlines(q, base), 0, Max(d, 0) - q[0].delta)
  {
    var shift, rest := Max(d, 0) - q[0].delta, q[1..];
    assert TakeOut(q, 0, d) == [Less(rest[0], -Max(d, 0))] + rest[1..];
    DeadlinesShift(rest, base + q[0].delta, shift);
    DeadlinesCons(Less(rest[0], -Max(d, 0)), rest[1..], base);
    assert Deadlines(rest, base + q[0].delta + shift)
        == [Due(rest[0].timer, base + Max(d, 0) + rest[0].delta)]
           + Deadlines(rest[1..], base + Max(d, 0) + rest[0].delta);
    assert Deadlines(q, base)[1..] == Deadlines(rest, base + q[0].delta);
  }

  lemma TakeOutNonNegative<T>(q: seq<Armed<T>>, k: nat, d: int)
    requires NonNegative(q) && k < |q|
    ensures NonNegative(TakeOut(q, k, d))
  {
  }

  lemma {:induction false} UndoneAhead<T>(q: seq<Armed<T>>, a: Armed<T>)
    requires a.delta >= 0 && (q == [] || q[0].delta >= a.delta)
    ensures var t := Insert(q, a); Place(q, a.delta) == 0 && t != [] && t[0] == a && TakeOut(t, 0, a.delta) == q
  {
    var t := Insert(q, a);
    if q != [] {
      assert t[1] == Less(q[0], a.delta) && t[2..] == q[1..] && Less(t[1], -a.delta) == q[0];
      assert TakeOut(t, 0, a.delta) == [q[0]] + q[1..];
    }
  }

  lemma {:induction false} InsertedBehind<T>(q: seq<Armed<T>>, a: Armed<T>)
    requires q != [] && q[0].delta < a.delta
    ensures var r, t := Less(a, q[0].delta), Insert(q, a);
      && Place(q, a.delta) == 1 + Place(q[1..], r.delta)
      && t != [] && t[0] == q[0] && t[1..] == Insert(q[1..], r)
  {
  }

  /** remove_Timer undoes add_Timer, delta for delta. */
  lemma {:induction false} TakeOutUndoesInsert<T>(q: seq<Armed<T>>, a: Armed<T>)
    requires NonNegative(q) && a.delta >= 0
    ensures var k, t := Place(q, a.delta), Insert(q, a);
      k < |t| && t[k].timer == a.timer && TakeOut(t, k, t[k].delta) == q
  {
    hide Insert, Place, TakeOut;
    if q == [] || q[0].delta >= a.delta {
      UndoneAhead(q, a);
    } else {
      var r, k, t := Less(a, q[0].delta), Place(q, a.delta), Insert(q, a);
      InsertedBehind(q, a);
      TakeOutUndoesInsert(q[1..], r);
      assert t[1..][k - 1] == t[k];
      TakeOutCons(t, k, t[k].delta);
      assert q == [q[0]] + q[1..];
    }
  }

  // ---------------------------------------------------------------- set_Timer

  /** set_Timer gives timer k the sleeptime s before it takes it out, so remove_Timer works with s. */
  ghost function Reset<T>(q: seq<Armed<T>>, k: nat, s: int): seq<Armed<T>>
    requires k < |q|
  {
    Insert(TakeOut(q, k, s), q[k].(delta := Max(s, 0)))
  }

  ghost function ResetPlace<T>(q: seq<Armed<T>>, k: nat, s: int): nat
    requires k < |q|
  {
    Place(TakeOut(q, k, s), Max(s, 0))
  }

  /** Timer k is due after Max(s, 0); the ones ahead of it are unaffected, the ones behind it move by Max(s, 0)
      minus its old delta. */
  lemma {:induction false} ResetDeadlines<T>(q: seq<Armed<T>>, k: nat, s: int)
    requires NonNegative(q) && k < |q|
    ensures var rest := WithoutTimer(Deadlines(q, 0), k, Max(s, 0) - q[k].delta);
      && Splits(rest, ResetPlace(q, k, s), Max(s, 0))
      && Deadlines(Reset(q, k, s), 0) == At(rest, ResetPlace(q, k, s), Due(q[k].timer, Max(s, 0)))
    ensures NonNegative(Reset(q, k, s))
  {
    TakeOutDeadlines(q, k, s, 0);
    TakeOutNonNegative(q, k, s);
    InsertDeadlines(TakeOut(q, k, s), q[k].(delta := Max(s, 0)), 0);
    InsertPlace(TakeOut(q, k, s), Max(s, 0), 0);
    InsertNonNegative(TakeOut(q, k, s), q[k].(delta := Max(s, 0)));
  }

  lemma OthersAt<X>(r: seq<X>, k: nat, x: X)
    requires k <= |r|
    ensures Others(At(r, k, x), k) == r
  {
  }

  lemma ShiftIsZeroIff<T>(r: seq<Due<T>>, k: nat, shift: int)
    requires k < |r|
    ensures WithoutTimer(r, k, shift) == Others(r, k) <==> k + 1 == |r| || shift == 0
  {
    if k + 1 < |r| {
      assert WithoutTimer(r, k, shift)[k].when == Others(r, k)[k].when + shift;
    }
    if shift == 0 {
      assert Shifted(r[k + 1..], shift) == r[k + 1..];
    }
  }

  /** So set_Timer leaves the deadlines of the other timers alone exactly when no timer follows, or when the
      new sleeptime happens to equal the delta that the timer had. */
  lemma {:induction false} ResetKeepsOthersIff<T>(q: seq<Armed<T>>, k: nat, s: int)
    requires NonNegative(q) && k < |q|
    ensures var t, j := Deadlines(Reset(q, k, s), 0), ResetPlace(q, k, s);
      j < |t| && (Others(t, j) == Others(Deadlines(q, 0), k) <==> k + 1 == |q| || Max(s, 0) == q[k].delta)
  {
    ResetDeadlines(q, k, s);
    OthersAt(WithoutTimer(Deadlines(q, 0), k, Max(s, 0) - q[k].delta), ResetPlace(q, k, s), Due(q[k].timer, Max(s, 0)));
    ShiftIsZeroIff(Deadlines(q, 0), k, Max(s, 0) - q[k].delta);
  }

  /** Two timers due after 10 and 20; the first is set to 3, and the second is suddenly due after 13. */
  lemma ResetMovesOthers()
    ensures var q := [Armed("a", 10, 10, 0), Armed("b", 10, 20, 0)];
      && Deadlines(q, 0) == [Due("a", 10), Due("b", 20)]
      && Deadlines(Reset(q, 0, 3), 0) == [Due("a", 3), Due("b", 13)]
  {
    var a, b := Armed("a", 10, 10, 0), Armed("b", 10, 20, 0);
    DeadlinesCons(a, [b], 0);
    assert [a] + [b] == [a, b];
    assert TakeOut([a, b], 0, 3) == [b.(delta := 13)];
    var t := Reset([a, b], 0, 3);
    assert t == [a.(delta := 3)] + [b];
    DeadlinesCons(a.(delta := 3), [b], 0);
  }

  // ---------------------------------------------------------------- update_timerqueue

  /** How many timers at the front are due now. */
  ghost function Leading<T>(q: seq<Armed<T>>): (n: nat)
    ensures n <= |q|
  {
    if q == [] || q[0].delta > 0 then 0 else 1 + Leading(q[1..])
  }

  /** What is left of its restart count after it has fired; 0 means that it is destroyed. */
  function Restarts(restart: int): int {
    if restart > 0 then restart - 1 else restart
  }

  /** The timer as it is armed again: add_Timer does not take a negative sleeptime. */
  ghost function Again<T>(a: Armed<T>): Armed<T> {
    Armed(a.timer, Max(a.maxtime, 0), a.maxtime, Restarts(a.restart))
  }

  /** A timer that is put in behind the next one to be looked at has a positive delta, so the sweep ends there. */
  lemma {:induction false} InsertLeading<T>(done: seq<Armed<T>>, rest: seq<Armed<T>>, a: Armed<T>)
    ensures |Insert(done + rest, a)| == |done| + |rest| + 1
    ensures Place(done + rest, a.delta) > |done| ==> Leading(Insert(done + rest, a)[|done|..]) <= Leading(rest)
  {
    var q := done + rest;
    if done != [] {
      if q[0].delta < a.delta {
        InsertLeading(done[1..], rest, Less(a, q[0].delta));
        assert q[1..] == done[1..] + rest;
        var t := Insert(done[1..] + rest, Less(a, q[0].delta));
        assert ([q[0]] + t)[|done|..] == t[|done| - 1..];
      }
    } else {
      assert q == rest;
      InsertLeadingHere(rest, a);
    }
  }

  lemma {:induction false} InsertLeadingHere<T>(rest: seq<Armed<T>>, a: Armed<T>)
    ensures |Insert(rest, a)| == |rest| + 1
    ensures Place(rest, a.delta) > 0 ==> Leading(Insert(rest, a)) <= Leading(rest)
  {
    if rest != [] && rest[0].delta < a.delta {
      InsertLeadingHere(rest[1..], Less(a, rest[0].delta));
      var t := Insert(rest[1..], Less(a, rest[0].delta));
      assert Insert(rest, a) == [rest[0]] + t && ([rest[0]] + t)[1..] == t;
      if Place(rest[1..], a.delta - rest[0].delta) == 0 {
        assert t[0].delta > 0;
      }
    }
  }

  datatype Outcome<T> = Outcome(queue: seq<Armed<T>>, fired: seq<T>)

  /** Where t_next stands after timer a has been put into done + rest. */
  ghost function Cut<T>(done: seq<Armed<T>>, rest: seq<Armed<T>>, a: Armed<T>): (m: nat)
    ensures m <= |Insert(done + rest, a)|
  {
    InsertLeading(done, rest, a);
    if rest == [] || Place(done + rest, a.delta) <= |done| then |done| + 1 else |done|
  }

  ghost function Also<T>(t: T, r: Outcome<T>): Outcome<T> {
    Outcome(r.queue, [t] + r.fired)
  }

  /** The loop of update_timerqueue: `todo` begins at t, and `done` holds what has been armed again before it. */
  ghost function Sweep<T>(done: seq<Armed<T>>, todo: seq<Armed<T>>): Outcome<T>
    decreases |todo|, Leading(todo)
  {
    if todo == [] || todo[0].delta > 0 then Outcome(done + todo, [])
    else
      var rest, a := todo[1..], Again(todo[0]);
      if a.restart == 0 then Also(todo[0].timer, Sweep(done, rest))
      else
        InsertLeading(done, rest, a);
        var q, m := Insert(done + rest, a), Cut(done, rest, a);
        Also(todo[0].timer, if rest == [] then Outcome(q, []) else Sweep(q[..m], q[m..]))
  }

  /** One turn of the loop for a timer that is armed again. */
  lemma {:induction false} SweepAgain<T>(done: seq<Armed<T>>, todo: seq<Armed<T>>)
    requires todo != [] && todo[0].delta <= 0 && Again(todo[0]).restart != 0
    ensures var rest, a := todo[1..], Again(todo[0]); var q, m := Insert(done + rest, a), Cut(done, rest, a);
      && Sweep(done, todo) == Also(todo[0].timer, Sweep(q[..m], q[m..]))
      && |q[m..]| <= |todo| && (|q[m..]| == |todo| ==> Leading(q[m..]) < Leading(todo))
  {
    var rest, a := todo[1..], Again(todo[0]);
    InsertLeading(done, rest, a);
    var q, m := Insert(done + rest, a), Cut(done, rest, a);
    if rest == [] {
      assert q[..m] == q && q[m..] == [] && q + [] == q;
    }
  }

  /** Where t_next stands in what is left of c + d after the turn of the first timer of d. */
  ghost function NextPlace<T>(c: seq<Armed<T>>, d: seq<Armed<T>>): (m: nat)
    requires d != []
  {
    if Again(d[0]).restart == 0 then |c| else Cut(c, d[1..], Again(d[0]))
  }

  ghost function AfterTurn<T>(c: seq<Armed<T>>, d: seq<Armed<T>>): seq<Armed<T>>
    requires d != []
  {
    if Again(d[0]).restart == 0 then c + d[1..] else Insert(c + d[1..], Again(d[0]))
  }

  /** One turn of the sweep, on values */
  lemma {:induction false} TurnTaken<T>(c: seq<Armed<T>>, d: seq<Armed<T>>)
    requires d != [] && d[0].delta <= 0
    ensures var e, m := AfterTurn(c, d), NextPlace(c, d);
      && m <= |e| && Sweep(c, d) == Also(d[0].timer, Sweep(e[..m], e[m..]))
      && |e[m..]| <= |d| && (|e[m..]| == |d| ==> Leading(e[m..]) < Leading(d))
  {
    hide Insert;
    if Again(d[0]).restart == 0 {
      var e := AfterTurn(c, d);
      assert e[..|c|] == c && e[|c|..] == d[1..];
    } else {
      SweepAgain(c, d);
    }
  }

  /** The time that has passed is taken off the first delta. */
  ghost function Elapse<T>(q: seq<Armed<T>>, tdiff: int): seq<Armed<T>> {
    if q == [] then q else [Less(q[0], Max(tdiff, 0))] + q[1..]
  }

  ghost function Update<T>(q: seq<Armed<T>>, tdiff: int): Outcome<T> {
    Sweep([], Elapse(q, tdiff))
  }

  ghost predicate OneShot<T>(q: seq<Armed<T>>) {
    forall i :: 0 <= i < |q| ==> q[i].restart in {0, 1}
  }

  ghost function Timers<T>(q: seq<Armed<T>>): (r: seq<T>)
    ensures |r| == |q| && forall i :: 0 <= i < |q| ==> r[i] == q[i].timer
  {
    seq(|q|, i requires 0 <= i < |q| => q[i].timer)
  }

  lemma {:induction false} LeadingSplit<T>(q: seq<Armed<T>>)
    requires q != [] && q[0].delta <= 0
    ensures var n := Leading(q[1..]);
      && Leading(q) == n + 1 && q[n + 1..] == q[1..][n..] && Timers(q[..n + 1]) == [q[0].timer] + Timers(q[1..][..n])
  {
  }

  lemma {:induction false} SweepOneShot<T>(q: seq<Armed<T>>)
    requires OneShot(q)
    ensures Sweep([], q) == Outcome(q[Leading(q)..], Timers(q[..Leading(q)]))
  {
    hide Insert;
    if q == [] || q[0].delta > 0 {
      assert [] + q == q && q[..0] == [] && Timers(q[..0]) == [];
    } else {
      LeadingSplit(q);
      SweepOneShot(q[1..]);
    }
  }

  /** How many timers share the earliest deadline. */
  lemma {:induction false} LeadingDeadlines<T>(q: seq<Armed<T>>, base: int)
    requires NonNegative(q)
    ensures forall i :: 0 <= i < Leading(q) ==> Deadlines(q, base)[i].when == base
    ensures forall i :: Leading(q) <= i < |q| ==> Deadlines(q, base)[i].when > base
    ensures Deadlines(q, base)[Leading(q)..] == Deadlines(q[Leading(q)..], base)
  {
    hide Insert, Place;
    if q == [] {
    } else if q[0].delta > 0 {
      DeadlinesRise(q[1..], base + q[0].delta);
    } else {
      LeadingDeadlines(q[1..], base);
      LeadingSplit(q);
      DeadlinesCons(q[0], q[1..], base);
      assert [q[0]] + q[1..] == q && Deadlines(q, base)[1..] == Deadlines(q[1..], base);
      BehindOne(Deadlines(q, base), Leading(q[1..]));
    }
  }

  lemma BehindOne<X>(s: seq<X>, n: nat)
    requires n < |s|
    ensures s[n + 1..] == s[1..][n..] && forall i :: 0 < i < |s| ==> s[i] == s[1..][i - 1]
  {
  }

  lemma {:induction false} ElapseDeadlines<T>(q: seq<Armed<T>>, tdiff: int)
    requires q != [] && tdiff >= 0
    ensures Deadlines(Elapse(q, tdiff), 0) == Shifted(Deadlines(q, 0), -tdiff)
  {
    DeadlinesCons(Less(q[0], tdiff), q[1..], 0);
    DeadlinesShift(q[1..], q[0].delta, -tdiff);
  }

  /** A tick below the first deadline fires nothing and brings every deadline nearer by the tick. */
  lemma {:induction false} ShortTick<T>(q: seq<Armed<T>>, tdiff: int)
    requires NonNegative(q) && q != [] && 0 <= tdiff < q[0].delta
    ensures Update(q, tdiff) == Outcome(Elapse(q, tdiff), []) && NonNegative(Elapse(q, tdiff))
    ensures Deadlines(Elapse(q, tdiff), 0) == Shifted(Deadlines(q, 0), -tdiff)
  {
    assert [] + Elapse(q, tdiff) == Elapse(q, tdiff);
    ElapseDeadlines(q, tdiff);
  }

  /** How many timers share the first deadline. */
  ghost function Together<T>(q: seq<Armed<T>>): nat
    requires q != []
  {
    1 + Leading(q[1..])
  }

  lemma {:induction false} TogetherShareDeadline<T>(q: seq<Armed<T>>)
    requires NonNegative(q) && q != []
    ensures var n, r := Together(q), Deadlines(q, 0);
      && (forall i :: 0 <= i < |q| ==> (r[i].when == q[0].delta <==> i < n))
      && Deadlines(q[n..], 0) == Shifted(r[n..], -q[0].delta)
  {
    var n := Together(q);
    LeadingDeadlines(q[1..], q[0].delta);
    assert q[1..][n - 1..] == q[n..];
    assert Deadlines(q, 0)[n..] == Deadlines(q[1..], q[0].delta)[n - 1..];
    DeadlinesShift(q[n..], q[0].delta, -q[0].delta);
  }

  /** A tick that reaches the first deadline, however far it goes beyond, fires exactly the timers that share
      this deadline, in queue order, and brings the others nearer by just the first delta. */
  lemma {:induction false} LongTick<T>(q: seq<Armed<T>>, tdiff: int)
    requires NonNegative(q) && OneShot(q) && q != [] && 0 <= tdiff && q[0].delta <= tdiff
    ensures var n, r := Together(q), Deadlines(q, 0);
      && Update(q, tdiff) == Outcome(q[n..], Timers(q[..n])) && NonNegative(q[n..])
      && (forall i :: 0 <= i < |q| ==> (r[i].when == q[0].delta <==> i < n))
      && Deadlines(q[n..], 0) == Shifted(r[n..], -q[0].delta)
  {
    SweepTogether(q, tdiff);
    TogetherShareDeadline(q);
  }

  lemma SweepTogether<T>(q: seq<Armed<T>>, tdiff: int)
    requires OneShot(q) && q != [] && 0 <= tdiff && q[0].delta <= tdiff
    ensures Update(q, tdiff) == Outcome(q[Together(q)..], Timers(q[..Together(q)]))
  {
    hide Insert, Sweep;
    var e, n := Elapse(q, tdiff), Together(q);
    assert e[1..] == q[1..];
    SweepOneShot(e);
    assert e[n..] == q[n..] && Timers(e[..n]) == Timers(q[..n]);
  }

  // ---------------------------------------------------------------- timers that arm themselves again

  /** The first delta, or 0 if there is no timer. */
  ghost function FirstDelta<T>(q: seq<Armed<T>>): int {
    if q == [] then 0 else q[0].delta
  }

  /** The earliest deadline that is not due yet, if it has been `first` (0 if there was none) before the due timer a
      was armed again. */
  ghost function Sooner<T>(first: int, a: Armed<T>): int {
    if a.restart == 0 || a.delta == 0 then first else if first == 0 || a.delta < first then a.delta else first
  }

  ghost function Soonest<T>(due: seq<Armed<T>>, first: int): int {
    if due == [] then first else Soonest(due[1..], Sooner(first, Again(due[0])))
  }

  /** The last of the due timers is armed again with just the deadline that is the earliest one by then. */
  ghost predicate Meets<T>(due: seq<Armed<T>>, first: int) {
    && due != []
    && var a := Again(due[|due| - 1]); a.restart != 0 && a.delta > 0 && a.delta == Soonest(due[..|due| - 1], first)
  }

  ghost function Put<T>(q: seq<Armed<T>>, a: Armed<T>): seq<Armed<T>> {
    if a.restart == 0 then q else Insert(q, a)
  }

  /** The queue q after the due timers have been armed again, those that are to be */
  ghost function Rearmed<T>(due: seq<Armed<T>>, q: seq<Armed<T>>): seq<Armed<T>> {
    if due == [] then q else Rearmed(due[1..], Put(q, Again(due[0])))
  }

  lemma MeetsLater<T>(due: seq<Armed<T>>, first: int)
    requires |due| > 1
    ensures Meets(due, first) <==> Meets(due[1..], Sooner(first, Again(due[0])))
  {
    var n := |due|;
    assert due[..n - 1][1..] == due[1..][..n - 2] && due[1..][n - 2] == due[n - 1];
  }

  lemma {:induction false} SameSoonest<T>(p: seq<Armed<T>>, q: seq<Armed<T>>, first: int)
    requires |p| == |q| && forall i :: 0 <= i < |p| ==> Again(p[i]) == Again(q[i])
    ensures Soonest(p, first) == Soonest(q, first)
  {
    if p != [] {
      SameSoonest(p[1..], q[1..], Sooner(first, Again(p[0])));
    }
  }

  lemma {:induction false} SameRearmed<T>(p: seq<Armed<T>>, q: seq<Armed<T>>, r: seq<Armed<T>>)
    requires |p| == |q| && forall i :: 0 <= i < |p| ==> Again(p[i]) == Again(q[i])
    ensures Rearmed(p, r) == Rearmed(q, r)
  {
    if p != [] {
      SameRearmed(p[1..], q[1..], Put(r, Again(p[0])));
    }
  }

  ghost predicate AllZero<T>(q: seq<Armed<T>>) {
    forall i :: 0 <= i < |q| ==> q[i].delta == 0
  }

  /** Timers of delta 0 are passed by a timer that sleeps. */
  lemma {:induction false} InsertBehind<T>(zeros: seq<Armed<T>>, rest: seq<Armed<T>>, a: Armed<T>)
    requires AllZero(zeros) && a.delta > 0
    ensures Insert(zeros + rest, a) == zeros + Insert(rest, a)
      && Place(zeros + rest, a.delta) == |zeros| + Place(rest, a.delta)
  {
    if zeros == [] {
      assert zeros + rest == rest && zeros + Insert(rest, a) == Insert(rest, a);
    } else {
      var q := zeros + rest;
      assert q[1..] == zeros[1..] + rest && Less(a, 0) == a;
      InsertBehind(zeros[1..], rest, a);
      assert zeros + Insert(rest, a) == [zeros[0]] + (zeros[1..] + Insert(rest, a));
    }
  }

  lemma {:induction false} LeadingZeros<T>(zeros: seq<Armed<T>>, rest: seq<Armed<T>>)
    requires AllZero(zeros) && FirstDelta(rest) >= 0 && (rest != [] ==> rest[0].delta > 0)
    ensures Leading(zeros + rest) == |zeros|
  {
    if zeros == [] {
      assert zeros + rest == rest;
    } else {
      assert (zeros + rest)[1..] == zeros[1..] + rest;
      LeadingZeros(zeros[1..], rest);
    }
  }

  /** The due timers come before those that are not due yet. */
  lemma {:induction false} DueFirst<T>(q: seq<Armed<T>>)
    requires NonNegative(q)
    ensures AllZero(q[..Leading(q)]) && (Leading(q) < |q| ==> q[Leading(q)].delta > 0)
  {
    if q != [] && q[0].delta <= 0 {
      DueFirst(q[1..]);
      assert q[..Leading(q)] == [q[0]] + q[1..][..Leading(q[1..])];
    }
  }

  /** One turn of the loop while other timers are due: the rest of them stays, and the earliest deadline and the queue
      are what they should be. */
  ghost predicate NextTurn<T>(done: seq<Armed<T>>, todo: seq<Armed<T>>, done': seq<Armed<T>>, todo': seq<Armed<T>>) {
    var n := Leading(todo);
    && n > 1 && Sweep(done, todo) == Also(todo[0].timer, Sweep(done', todo'))
    && Leading(todo') == n - 1 && todo'[..n - 1] == todo[1..n]
    && FirstDelta(todo'[n - 1..]) == Sooner(FirstDelta(todo[n..]), Again(todo[0]))
    && done' + todo'[n - 1..] == Put(done + todo[n..], Again(todo[0]))
  }

  /** While other timers are due, a timer that is armed again does not make any of the others due. */
  lemma TurnBeforeLast<T>(done: seq<Armed<T>>, todo: seq<Armed<T>>)
    returns (done': seq<Armed<T>>, todo': seq<Armed<T>>)
    requires AllZero(done) && Leading(todo) > 1 && NonNegative(todo[1..])
    ensures NextTurn(done, todo, done', todo') && AllZero(done') && NonNegative(todo')
  {
    hide Insert, Sweep, AfterTurn, NextPlace;
    var n, rest, a := Leading(todo), todo[1..], Again(todo[0]);
    DueFirst(rest);
    TurnTaken(done, todo);
    assert rest[..n - 1] == todo[1..n] && rest[n - 1..] == todo[n..];
    if a.restart == 0 {
      TurnDropped(done, todo);
      done', todo' := done, rest;
    } else if a.delta == 0 {
      TurnAhead(done, todo, a);
      InsertAhead(done, todo[n..], a);
      done', todo' := [a] + done, rest;
    } else {
      TurnBehind(done, todo, a);
      InsertBehind(done, todo[n..], a);
      PutBehind(rest, a, n - 1);
      done', todo' := done, Insert(rest, a);
    }
  }

  lemma {:induction false} TurnDropped<T>(done: seq<Armed<T>>, todo: seq<Armed<T>>)
    requires Leading(todo) > 0 && Again(todo[0]).restart == 0
    ensures Sweep(done, todo) == Also(todo[0].timer, Sweep(done, todo[1..]))
  {
  }

  lemma {:induction false} TurnAhead<T>(done: seq<Armed<T>>, todo: seq<Armed<T>>, a: Armed<T>)
    requires AllZero(done) && Leading(todo) > 1 && NonNegative(todo[1..])
    requires a == Again(todo[0]) && a.restart != 0 && a.delta == 0
    ensures var e, m := AfterTurn(done, todo), NextPlace(done, todo);
      m <= |e| && e[..m] == [a] + done && e[m..] == todo[1..]
  {
    hide Insert;
    InsertAhead(done, todo[1..], a);
    assert AfterTurn(done, todo) == ([a] + done) + todo[1..];
  }

  lemma {:induction false} TurnBehind<T>(done: seq<Armed<T>>, todo: seq<Armed<T>>, a: Armed<T>)
    requires AllZero(done) && Leading(todo) > 1 && NonNegative(todo[1..])
    requires a == Again(todo[0]) && a.restart != 0 && a.delta > 0
    ensures var e, m := AfterTurn(done, todo), NextPlace(done, todo);
      m <= |e| && e[..m] == done && e[m..] == Insert(todo[1..], a)
  {
    hide Insert;
    var rest := todo[1..];
    InsertBehind(done, rest, a);
    DueFirst(rest);
    assert rest[0].delta == 0;
    assert AfterTurn(done, todo) == done + Insert(rest, a) && NextPlace(done, todo) == |done|;
  }

  /** A timer that does not sleep goes to the front. */
  lemma {:induction false} InsertAhead<T>(done: seq<Armed<T>>, rest: seq<Armed<T>>, a: Armed<T>)
    requires AllZero(done) && (rest != [] ==> rest[0].delta >= 0) && a.delta == 0
    ensures Insert(done + rest, a) == [a] + done + rest && Place(done + rest, 0) == 0
  {
    var q := done + rest;
    if q != [] {
      assert Less(q[0], 0) == q[0] && [a, q[0]] + q[1..] == [a] + done + rest;
    }
  }

  lemma {:induction false} PutBehind<T>(rest: seq<Armed<T>>, a: Armed<T>, n: nat)
    requires NonNegative(rest) && n == Leading(rest) && a.delta > 0 && a.restart != 0
    ensures var t := Insert(rest, a);
      && NonNegative(t) && |t| == |rest| + 1 && Leading(t) == n && t[..n] == rest[..n]
      && FirstDelta(t[n..]) == Sooner(FirstDelta(rest[n..]), a) && t[n..] == Insert(rest[n..], a)
  {
    hide Leading, NonNegative;
    DueFirst(rest);
    InsertNonNegative(rest, a);
    InsertLeadingHere(rest, a);
    InsertBehind(rest[..n], rest[n..], a);
    assert rest[..n] + rest[n..] == rest;
    LeadingZeros(rest[..n], Insert(rest[n..], a));
  }

  /** The turn of the last timer that is due: the sweep goes on exactly if the timer is armed again with the deadline of
      the next one. */
  lemma {:induction false} LastTurn<T>(done: seq<Armed<T>>, todo: seq<Armed<T>>)
    requires AllZero(done) && Leading(todo) == 1
    ensures var a, r := Again(todo[0]), Sweep(done, todo);
      && [todo[0].timer] <= r.fired
      && (|r.fired| > 1 <==> |todo| > 1 && a.restart != 0 && a.delta == todo[1].delta)
      && (|r.fired| > 1 ==> r.fired[1] == todo[1].timer)
      && (|r.fired| == 1 ==> r.queue == Put(done + todo[1..], a))
  {
    var rest, a := todo[1..], Again(todo[0]);
    if a.restart != 0 {
      SweepAgain(done, todo);
      if rest == [] {
      } else if a.delta == 0 {
        InsertAhead(done, rest, a);
      } else {
        InsertBehind(done, rest, a);
      }
    }
  }

  /** This timer is in the queue, and not due yet. */
  ghost predicate Sleeps<T>(q: seq<Armed<T>>, timer: T) {
    exists k :: 0 <= k < |q| && q[k].timer == timer && q[k].delta > 0
  }

  /** The end of a sweep: what has fired; what the queue is if nothing more than the due timers has, and otherwise that
      the next one to fire was still asleep when the last due timer was taken out */
  ghost predicate EndsWell<T>(done: seq<Armed<T>>, todo: seq<Armed<T>>) {
    var n, r := Leading(todo), Sweep(done, todo);
    && Timers(todo[..n]) <= r.fired
    && (r.fired == Timers(todo[..n]) <==> !Meets(todo[..n], FirstDelta(todo[n..])))
    && (r.fired == Timers(todo[..n]) ==> r.queue == Rearmed(todo[..n], done + todo[n..]))
    && (r.fired != Timers(todo[..n]) ==>
          0 < n < |r.fired| && Sleeps(Rearmed(todo[..n - 1], done + todo[n..]), r.fired[n]))
  }

  lemma {:induction false} EndsWithLast<T>(done: seq<Armed<T>>, todo: seq<Armed<T>>)
    requires AllZero(done) && Leading(todo) == 1
    ensures EndsWell(done, todo)
  {
    hide Insert, Sweep;
    LastTurn(done, todo);
    var t := todo[..1];
    assert t[1..] == [] && t[..0] == [] && t[0] == todo[0] && Timers(t) == [todo[0].timer];
    assert todo[1..] != [] ==> todo[1..][0] == todo[1] && todo[1].delta > 0;
    assert Rearmed(t, done + todo[1..]) == Put(done + todo[1..], Again(todo[0]));
    assert todo[1..] != [] ==> (done + todo[1..])[|done|] == todo[1];
  }

  lemma EndsLater<T>(done: seq<Armed<T>>, todo: seq<Armed<T>>, done': seq<Armed<T>>, todo': seq<Armed<T>>)
    requires NextTurn(done, todo, done', todo') && EndsWell(done', todo')
    ensures EndsWell(done, todo)
  {
    hide Insert, Sweep, Meets, Leading, Put, Sooner;
    var n := Leading(todo);
    MeetsLater(todo[..n], FirstDelta(todo[n..]));
    assert todo[..n][1..] == todo[1..n] && todo[..n - 1][1..] == todo[1..n][..n - 2] == todo'[..n - 2];
    assert Timers(todo[..n]) == [todo[0].timer] + Timers(todo[1..n]);
  }

  /** Whatever timers arm themselves again in one sweep, the due ones fire first and in order. Just these fire exactly
      if the last one of them is not armed again with just the earliest deadline that is left; then those that are armed
      again are put into the queue one after the other. */
  lemma {:induction false} SweepFiresDueIff<T>(done: seq<Armed<T>>, todo: seq<Armed<T>>)
    requires AllZero(done) && Leading(todo) > 0 && NonNegative(todo[1..])
    ensures EndsWell(done, todo)
    decreases Leading(todo)
  {
    hide Insert, Sweep, Meets, EndsWell, Put;
    if Leading(todo) == 1 {
      EndsWithLast(done, todo);
    } else {
      var done', todo' := TurnBeforeLast(done, todo);
      SweepFiresDueIff(done', todo');
      EndsLater(done, todo, done', todo');
    }
  }

  /** That time has passed changes the first delta only. */
  lemma {:induction false} ElapseAlike<T>(q: seq<Armed<T>>, tdiff: int, n: nat, first: int, r: seq<Armed<T>>)
    requires 0 < n <= |q|
    ensures var e := Elapse(q, tdiff);
      && e[1..] == q[1..] && e[n..] == q[n..] && |e| == |q| && Timers(e[..n]) == Timers(q[..n])
      && (Meets(e[..n], first) <==> Meets(q[..n], first))
      && Rearmed(e[..n], r) == Rearmed(q[..n], r) && Rearmed(e[..n - 1], r) == Rearmed(q[..n - 1], r)
  {
    hide Rearmed, Soonest;
    var e := Elapse(q, tdiff);
    assert forall i :: 0 <= i < n ==> Again(e[i]) == Again(q[i]);
    assert e[..n][..n - 1] == e[..n - 1] && q[..n][..n - 1] == q[..n - 1];
    SameSoonest(e[..n - 1], q[..n - 1], first);
    SameRearmed(e[..n], q[..n], r);
    SameRearmed(e[..n - 1], q[..n - 1], r);
  }

  /** So it is for a whole tick: just the timers that share the first deadline fire. */
  lemma TickFiresDueIff<T>(q: seq<Armed<T>>, tdiff: int)
    requires NonNegative(q) && q != [] && q[0].delta <= Max(tdiff, 0)
    ensures var n, r := Together(q), Update(q, tdiff);
      && Timers(q[..n]) <= r.fired
      && (r.fired == Timers(q[..n]) <==> !Meets(q[..n], FirstDelta(q[n..])))
      && (r.fired == Timers(q[..n]) ==> r.queue == Rearmed(q[..n], q[n..]))
      && (r.fired != Timers(q[..n]) ==> n < |r.fired| && Sleeps(Rearmed(q[..n - 1], q[n..]), r.fired[n]))
  {
    hide Insert, Sweep, Rearmed, Soonest, Meets, Sleeps;
    var e, n := Elapse(q, tdiff), Together(q);
    ElapseAlike(q, tdiff, n, FirstDelta(q[n..]), q[n..]);
    SweepFiresDueIff([], e);
    assert [] + q[n..] == q[n..];
  }

  /** Such a tick: "a" fires and is put back with the very deadline of "b", which makes the delta of "b" 0, so that "b"
      fires 5 early. */
  lemma RearmedFiresEarly()
    ensures var q := [Armed("a", 3, 5, -1), Armed("b", 5, 9, 0)];
      && Deadlines(q, 0) == [Due("a", 3), Due("b", 8)]
      && Update(q, 3) == Outcome([Armed("a", 5, 5, -1)], ["a", "b"])
  {
    var a, b := Armed("a", 3, 5, -1), Armed("b", 5, 9, 0);
    DeadlinesCons(a, [b], 0);
    assert [a] + [b] == [a, b];
    var e := Elapse([a, b], 3);
    assert e == [Less(a, 3), b] && e[1..] == [b] && [] + [b] == [b];
    var q := Insert([b], Again(a));
    assert q == [Again(a), Less(b, 5)] && q[..1] == [Again(a)] && q[1..] == [Less(b, 5)];
    assert [Less(b, 5)][1..] == [];
    assert Sweep([Again(a)], []) == Outcome([Again(a)], []);
    assert Sweep([Again(a)], [Less(b, 5)]) == Outcome([Again(a)], ["b"]);
  }

  // ---------------------------------------------------------------- runs

  datatype Event<T> =
    | Arm(timer: T, sleeptime: int, restart: int)
    | Disarm(place: nat)
    | Pass(tdiff: nat)

  datatype Firing<T> = Firing(timer: T, due: int, at: int)

  datatype Notes<!T> = Notes(due: T -> int, log: seq<Firing<T>>)

  /** The clock, the queue, the time for which each timer was last armed, and what has fired. */
  datatype World<!T> = World(now: int, queue: seq<Armed<T>>, notes: Notes<T>)

  ghost predicate Legal<T(!new)>(w: World<T>, e: Event<T>) {
    match e
    case Arm(timer, _, _) => timer !in Timers(w.queue)
    case Disarm(place) => place < |w.queue|
    case Pass(_) => true
  }

  ghost function Step<T(!new)>(w: World<T>, e: Event<T>): World<T>
    requires Legal(w, e)
  {
    match e
    case Arm(timer, sleeptime, restart) =>
      var s := Max(sleeptime, 0);
      World(w.now, Insert(w.queue, Armed(timer, s, sleeptime, restart)),
        w.notes.(due := Rearm(w.notes.due, timer, w.now + s)))
    case Disarm(place) => w.(queue := TakeOut(w.queue, place, w.queue[place].delta))
    case Pass(tdiff) =>
      var r := Update(w.queue, tdiff);
      World(w.now + tdiff, r.queue, Noted(r.fired, w.notes, w.queue, w.now + tdiff))
  }

  ghost function Rearm<T(!new)>(due: T -> int, timer: T, when: int): T -> int {
    x => if x == timer then when else due(x)
  }

  /** How long the timer sleeps when it is armed again */
  ghost function Period<T(!new)>(q: seq<Armed<T>>, timer: T): int {
    if q == [] then 0 else if q[0].timer == timer then Max(q[0].maxtime, 0) else Period(q[1..], timer)
  }

  /** Each firing is noted with the time it was due, and from then on the timer is due after its period. */
  ghost function NotedOne<T(!new)>(t: T, notes: Notes<T>, q: seq<Armed<T>>, at: int): Notes<T> {
    Notes(Rearm(notes.due, t, at + Period(q, t)), notes.log + [Firing(t, notes.due(t), at)])
  }

  ghost function Noted<T(!new)>(fired: seq<T>, notes: Notes<T>, q: seq<Armed<T>>, at: int): Notes<T> {
    if fired == [] then notes else Noted(fired[1..], NotedOne(fired[0], notes, q, at), q, at)
  }

  /** Not before its time, and if `exact` not after it either. */
  ghost predicate InTime(due: int, at: int, exact: bool) {
    due <= at && (exact ==> due == at)
  }

  /** The deadlines r, counted from now, are in time. */
  ghost predicate AllInTime<T(!new)>(r: seq<Due<T>>, now: int, due: T -> int, exact: bool) {
    forall i :: 0 <= i < |r| ==> InTime(due(r[i].timer), now + r[i].when, exact)
  }

  ghost predicate LogInTime<T(!new)>(log: seq<Firing<T>>, exact: bool) {
    forall i :: 0 <= i < |log| ==> InTime(log[i].due, log[i].at, exact)
  }

  /** The queue has no timer twice, its deadlines are in time, and so was what has fired. */
  ghost predicate Kept<T(!new)>(q: seq<Armed<T>>, now: int, notes: Notes<T>, exact: bool) {
    && NonNegative(q) && NoDup(Timers(q))
    && AllInTime(Deadlines(q, 0), now, notes.due, exact) && LogInTime(notes.log, exact)
  }

  ghost predicate OnCourse<T(!new)>(w: World<T>, exact: bool) {
    Kept(w.queue, w.now, w.notes, exact)
  }

  /** The tick does not go beyond the first deadline. */
  ghost predicate Gentle<T(!new)>(w: World<T>, e: Event<T>) {
    e.Pass? && w.queue != [] ==> e.tdiff <= w.queue[0].delta
  }

  /** If the tick makes timers fire, then the last one of them is not armed again with the earliest deadline left. */
  ghost predicate Apart<T(!new)>(w: World<T>, e: Event<T>) {
    e.Pass? && w.queue != [] && w.queue[0].delta <= e.tdiff ==>
      var n := Together(w.queue); !Meets(w.queue[..n], FirstDelta(w.queue[n..]))
  }

  lemma {:induction false} InsertTimers<T>(q: seq<Armed<T>>, a: Armed<T>)
    ensures Timers(Insert(q, a)) == At(Timers(q), Place(q, a.delta), a.timer)
  {
    hide At, Insert, Place;
    if q == [] || q[0].delta >= a.delta {
      InsertedAhead(q, a);
    } else {
      var r := Less(a, q[0].delta);
      InsertedBehind(q, a);
      InsertTimers(q[1..], r);
      assert Timers(q)[1..] == Timers(q[1..]);
      assert Timers(Insert(q, a)) == [q[0].timer] + Timers(Insert(q, a)[1..]);
      AtCons(Timers(q), Place(q, a.delta), a.timer);
    }
  }

  lemma {:induction false} InsertedAhead<T>(q: seq<Armed<T>>, a: Armed<T>)
    requires q == [] || q[0].delta >= a.delta
    ensures Timers(Insert(q, a)) == At(Timers(q), Place(q, a.delta), a.timer)
  {
    if q != [] {
      assert Insert(q, a) == [a] + ([Less(q[0], a.delta)] + q[1..]);
    }
  }

  lemma DistinctAt<X>(r: seq<X>, k: nat, x: X)
    requires NoDup(r) && k <= |r| && x !in r
    ensures NoDup(At(r, k, x))
  {
    var t := At(r, k, x);
    forall i, j | 0 <= i < j < |t|
      ensures t[i] != t[j]
    {
      if i == k {
        assert t[j] == r[j - 1];
      } else {
        assert t[i] == r[if i < k then i else i - 1];
      }
    }
  }

  lemma InAt<X>(r: seq<X>, k: nat, x: X, y: X)
    requires k <= |r|
    ensures y in At(r, k, x) <==> y == x || y in r
  {
    assert r == r[..k] + r[k..];
  }

  lemma {:induction false} DeadlineTimers<T>(q: seq<Armed<T>>, base: int)
    ensures forall i :: 0 <= i < |q| ==> Deadlines(q, base)[i].timer == q[i].timer
  {
    if q != [] {
      DeadlineTimers(q[1..], base + q[0].delta);
    }
  }

  lemma AtInTime<T(!new)>(r: seq<Due<T>>, k: nat, now: int, due: T -> int, timer: T, s: int, exact: bool)
    requires AllInTime(r, now, due, exact) && k <= |r| && forall i :: 0 <= i < |r| ==> r[i].timer != timer
    ensures AllInTime(At(r, k, Due(timer, s)), now, Rearm(due, timer, now + s), exact)
  {
    var t, due' := At(r, k, Due(timer, s)), Rearm(due, timer, now + s);
    forall i | 0 <= i < |t|
      ensures InTime(due'(t[i].timer), now + t[i].when, exact)
    {
      if i != k {
        var j := if i < k then i else i - 1;
        assert t[i] == r[j];
      }
    }
  }

  /** A timer is put in. */
  lemma {:induction false} ArmKept<T(!new)>(q: seq<Armed<T>>, a: Armed<T>, now: int, notes: Notes<T>, exact: bool)
    requires Kept(q, now, notes, exact) && a.timer !in Timers(q) && a.delta >= 0
    ensures Kept(Insert(q, a), now, notes.(due := Rearm(notes.due, a.timer, now + a.delta)), exact)
  {
    InsertNonNegative(q, a);
    InsertTimers(q, a);
    DistinctAt(Timers(q), Place(q, a.delta), a.timer);
    InsertDeadlines(q, a, 0);
    OtherTimers(q, a.timer);
    AtInTime(Deadlines(q, 0), Place(q, a.delta), now, notes.due, a.timer, a.delta, exact);
  }

  lemma {:induction false} OtherTimers<T>(q: seq<Armed<T>>, timer: T)
    requires timer !in Timers(q)
    ensures forall i :: 0 <= i < |q| ==> Deadlines(q, 0)[i].timer != timer
  {
    DeadlineTimers(q, 0);
    assert forall i :: 0 <= i < |q| ==> q[i].timer == Timers(q)[i];
  }

  lemma WithoutInTime<T(!new)>(r: seq<Due<T>>, k: nat, now: int, due: T -> int, exact: bool)
    requires k < |r| && AllInTime(r, now, due, exact)
    ensures AllInTime(WithoutTimer(r, k, 0), now, due, exact)
  {
  }

  lemma DisarmKept<T(!new)>(q: seq<Armed<T>>, k: nat, now: int, notes: Notes<T>, exact: bool)
    requires Kept(q, now, notes, exact) && k < |q|
    ensures Kept(TakeOut(q, k, q[k].delta), now, notes, exact)
  {
    TakeOutDeadlines(q, k, q[k].delta, 0);
    TakeOutNonNegative(q, k, q[k].delta);
    assert Timers(TakeOut(q, k, q[k].delta)) == Timers(q)[..k] + Timers(q)[k + 1..];
    WithoutInTime(Deadlines(q, 0), k, now, notes.due, exact);
  }

  /** The timers q fire at this time, and it is time for them. */
  ghost predicate Ripe<T(!new)>(q: seq<Armed<T>>, at: int, due: T -> int, exact: bool) {
    forall i :: 0 <= i < |q| ==> InTime(due(q[i].timer), at, exact)
  }

  ghost predicate Strangers<T(!new)>(p: seq<Armed<T>>, q: seq<Armed<T>>) {
    forall i :: 0 <= i < |p| ==> p[i].timer !in Timers(q)
  }

  ghost predicate KnowsPeriods<T(!new)>(all: seq<Armed<T>>, q: seq<Armed<T>>) {
    forall i :: 0 <= i < |q| ==> Period(all, q[i].timer) == Again(q[i]).delta
  }

  /** The other timers that are due do not mind that the first one is armed again. */
  lemma OthersRipe<T(!new)>(due: seq<Armed<T>>, q: seq<Armed<T>>, at: int, now: T -> int, exact: bool, when: int)
    requires due != [] && NoDup(Timers(due)) && Strangers(due, q) && Ripe(due, at, now, exact)
    ensures Ripe(due[1..], at, Rearm(now, due[0].timer, when), exact)
    ensures Strangers(due[1..], Put(q, Again(due[0])))
  {
    var a := Again(due[0]);
    InsertTimers(q, a);
    forall i | 0 <= i < |due[1..]|
      ensures due[1..][i].timer != a.timer && due[1..][i].timer !in Timers(Insert(q, a))
    {
      assert Timers(due)[0] != Timers(due)[i + 1];
      InAt(Timers(q), Place(q, a.delta), a.timer, due[1..][i].timer);
    }
  }

  lemma PutKept<T(!new)>(q: seq<Armed<T>>, a: Armed<T>, now: int, notes: Notes<T>, exact: bool)
    requires Kept(q, now, notes, exact) && a.timer !in Timers(q) && a.delta >= 0
      && InTime(notes.due(a.timer), now, exact)
    ensures
      var log := notes.log + [Firing(a.timer, notes.due(a.timer), now)];
      Kept(Put(q, a), now, Notes(Rearm(notes.due, a.timer, now + a.delta), log), exact)
  {
    ArmKept(q, a, now, notes, exact);
    OtherTimers(q, a.timer);
  }

  /** All due timers fire, one after the other. */
  lemma {:induction false} FireAll<T(!new)>(due: seq<Armed<T>>, q: seq<Armed<T>>, all: seq<Armed<T>>, at: int,
                                            notes: Notes<T>, exact: bool)
    requires NoDup(Timers(due)) && Strangers(due, q) && KnowsPeriods(all, due)
    requires Kept(q, at, notes, exact) && Ripe(due, at, notes.due, exact)
    ensures Kept(Rearmed(due, q), at, Noted(Timers(due), notes, all, at), exact)
  {
    hide Kept, Insert, Deadlines;
    if due != [] {
      var t := due[0].timer;
      OthersRipe(due, q, at, notes.due, exact, at + Period(all, t));
      PutKept(q, Again(due[0]), at, notes, exact);
      assert Timers(due)[1..] == Timers(due[1..]);
      FireAll(due[1..], Put(q, Again(due[0])), all, at, NotedOne(t, notes, all, at), exact);
    }
  }

  lemma {:induction false} PeriodsKnown<T(!new)>(q: seq<Armed<T>>)
    requires NoDup(Timers(q))
    ensures KnowsPeriods(q, q)
  {
    if q != [] {
      assert Timers(q)[1..] == Timers(q[1..]);
      PeriodsKnown(q[1..]);
      forall i | 0 <= i < |q|
        ensures Period(q, q[i].timer) == Again(q[i]).delta
      {
        if i > 0 {
          assert Timers(q)[0] != Timers(q)[i] && q[1..][i - 1] == q[i];
        }
      }
    }
  }

  lemma ShiftInTime<T(!new)>(r: seq<Due<T>>, now: int, due: T -> int, exact: bool, h: int, tdiff: int)
    requires AllInTime(r, now, due, exact) && h <= tdiff && (exact ==> h == tdiff)
    ensures AllInTime(Shifted(r, -h), now + tdiff, due, exact)
  {
  }

  /** The timers that share the first deadline are due, and the others as far away as the notes have it. */
  lemma PassSplits<T(!new)>(q: seq<Armed<T>>, now: int, notes: Notes<T>, tdiff: nat, exact: bool)
    requires Kept(q, now, notes, exact) && q != [] && q[0].delta <= tdiff && (exact ==> tdiff == q[0].delta)
    ensures var n := Together(q);
      && Kept(q[n..], now + tdiff, notes, exact) && Ripe(q[..n], now + tdiff, notes.due, exact)
  {
    hide Leading;
    var n := Together(q);
    TogetherShareDeadline(q);
    DeadlineTimers(q, 0);
    ShiftInTime(Deadlines(q, 0)[n..], now, notes.due, exact, q[0].delta, tdiff);
    assert Timers(q[n..]) == Timers(q)[n..];
    forall i | 0 <= i < n
      ensures InTime(notes.due(q[i].timer), now + tdiff, exact)
    {
      assert InTime(notes.due(Deadlines(q, 0)[i].timer), now + Deadlines(q, 0)[i].when, exact);
    }
  }

  lemma SplitsApart<T(!new)>(q: seq<Armed<T>>, n: nat)
    requires n <= |q| && NoDup(Timers(q))
    ensures NoDup(Timers(q[..n])) && Strangers(q[..n], q[n..]) && KnowsPeriods(q, q[..n])
  {
    PeriodsKnown(q);
    assert Timers(q[..n]) == Timers(q)[..n] && Timers(q[n..]) == Timers(q)[n..];
  }

  /** A tick that reaches the first deadline */
  lemma PassDue<T(!new)>(w: World<T>, tdiff: nat, exact: bool)
    requires OnCourse(w, exact) && w.queue != [] && w.queue[0].delta <= tdiff && Apart(w, Pass(tdiff))
    requires exact ==> tdiff == w.queue[0].delta
    ensures OnCourse(Step(w, Pass(tdiff)), exact)
  {
    hide NoDup, AllInTime, Noted, Deadlines, Sweep, Rearmed;
    var q, n := w.queue, Together(w.queue);
    TickFiresDueIff(q, tdiff);
    PassSplits(q, w.now, w.notes, tdiff, exact);
    SplitsApart(q, n);
    FireAll(q[..n], q[n..], q, w.now + tdiff, w.notes, exact);
  }

  /** A tick that does not reach the first deadline */
  lemma PassQuietly<T(!new)>(w: World<T>, tdiff: nat, exact: bool)
    requires OnCourse(w, exact) && w.queue != [] && tdiff < w.queue[0].delta
    ensures OnCourse(Step(w, Pass(tdiff)), exact)
  {
    hide Insert, Sweep, NoDup;
    var q := w.queue;
    ShortTick(q, tdiff);
    ShiftInTime(Deadlines(q, 0), w.now, w.notes.due, exact, tdiff, tdiff);
    assert Timers(Elapse(q, tdiff)) == Timers(q);
  }

  lemma PassOnCourse<T(!new)>(w: World<T>, tdiff: nat, exact: bool)
    requires OnCourse(w, exact) && Apart(w, Pass(tdiff)) && (exact ==> Gentle(w, Pass(tdiff)))
    ensures OnCourse(Step(w, Pass(tdiff)), exact)
  {
    hide Insert, Noted, Meets;
    var q := w.queue;
    if q == [] {
      NothingPasses(w, tdiff, exact);
    } else if tdiff < q[0].delta {
      PassQuietly(w, tdiff, exact);
    } else {
      PassDue(w, tdiff, exact);
    }
  }

  lemma NothingPasses<T(!new)>(w: World<T>, tdiff: nat, exact: bool)
    requires OnCourse(w, exact) && w.queue == []
    ensures OnCourse(Step(w, Pass(tdiff)), exact)
  {
    assert Update(w.queue, tdiff) == Outcome([], []);
  }

  lemma StepOnCourse<T(!new)>(w: World<T>, e: Event<T>, exact: bool)
    requires OnCourse(w, exact) && Legal(w, e) && Apart(w, e) && (exact ==> Gentle(w, e))
    ensures OnCourse(Step(w, e), exact)
  {
    match e {
      case Arm(timer, s, restart) => ArmKept(w.queue, Armed(timer, Max(s, 0), s, restart), w.now, w.notes, exact);
      case Disarm(place) => DisarmKept(w.queue, place, w.now, w.notes, exact);
      case Pass(tdiff) => PassOnCourse(w, tdiff, exact);
    }
  }

  lemma {:induction false} NotedMore<T(!new)>(fired: seq<T>, notes: Notes<T>, q: seq<Armed<T>>, at: int)
    ensures notes.log <= Noted(fired, notes, q, at).log
  {
    if fired != [] {
      NotedMore(fired[1..], NotedOne(fired[0], notes, q, at), q, at);
    }
  }

  lemma {:induction false} NotedConcat<T(!new)>(a: seq<T>, b: seq<T>, notes: Notes<T>, q: seq<Armed<T>>, at: int)
    ensures Noted(a + b, notes, q, at) == Noted(b, Noted(a, notes, q, at), q, at)
    decreases |a|
  {
    hide NotedOne;
    if a == [] {
      assert a + b == b;
    } else {
      assert (a + b)[0] == a[0] && (a + b)[1..] == a[1..] + b;
      NotedConcat(a[1..], b, NotedOne(a[0], notes, q, at), q, at);
    }
  }

  lemma {:induction false} StaysStranger<T>(due: seq<Armed<T>>, q: seq<Armed<T>>, timer: T)
    requires timer !in Timers(q) && timer !in Timers(due)
    ensures timer !in Timers(Rearmed(due, q))
  {
    if due != [] {
      var a := Again(due[0]);
      assert a.timer == Timers(due)[0] && Timers(due[1..]) == Timers(due)[1..];
      InsertTimers(q, a);
      InAt(Timers(q), Place(q, a.delta), a.timer, timer);
      StaysStranger(due[1..], Put(q, a), timer);
    }
  }

  /** Before the last due timer is taken out, a timer that sleeps is due later than now by the notes, and it stays so
      when the last one has fired. */
  lemma SleepsByNotes<T(!new)>(w: World<T>, x: T)
    requires OnCourse(w, true) && w.queue != []
    requires var q, n := w.queue, Together(w.queue); Sleeps(Rearmed(q[..n - 1], q[n..]), x)
    ensures var q, n, at := w.queue, Together(w.queue), w.now + w.queue[0].delta;
      Noted(Timers(q[..n]), w.notes, q, at).due(x) > at
  {
    hide Insert, Rearmed, Leading;
    var q, n, d := w.queue, Together(w.queue), w.queue[0].delta;
    var at, init, last := w.now + d, q[..n - 1], q[n - 1].timer;
    PassSplits(q, w.now, w.notes, d, true);
    SplitsApart(q, n);
    BeforeLast(q[..n], q[n..]);
    assert q[..n][..n - 1] == init && Timers(q[..n]) == Timers(init) + [last];
    FireAll(init, q[n..], q, at, w.notes, true);
    StaysStranger(init, q[n..], last);
    var left, notes := Rearmed(init, q[n..]), Noted(Timers(init), w.notes, q, at);
    SleepingLater(left, at, notes, x);
    NotedConcat(Timers(init), [last], w.notes, q, at);
    assert Noted([last], notes, q, at) == NotedOne(last, notes, q, at);
  }

  lemma BeforeLast<T(!new)>(due: seq<Armed<T>>, q: seq<Armed<T>>)
    requires due != [] && NoDup(Timers(due)) && Strangers(due, q)
    ensures var init, last := due[..|due| - 1], due[|due| - 1].timer;
      && NoDup(Timers(init)) && Strangers(init, q) && last !in Timers(init) && last !in Timers(q)
  {
    var n := |due| - 1;
    assert Timers(due[..n]) == Timers(due)[..n] && Timers(due)[n] == due[n].timer;
  }

  lemma SleepingLater<T(!new)>(q: seq<Armed<T>>, at: int, notes: Notes<T>, x: T)
    requires Kept(q, at, notes, true) && Sleeps(q, x)
    ensures notes.due(x) > at && x in Timers(q)
  {
    var k :| 0 <= k < |q| && q[k].timer == x && q[k].delta > 0;
    DeadlineTimers(q, 0);
    DeadlineAtLeast(q, 0, k);
    assert Timers(q)[k] == x;
    assert InTime(notes.due(Deadlines(q, 0)[k].timer), at + Deadlines(q, 0)[k].when, true);
  }

  lemma {:induction false} DeadlineAtLeast<T>(q: seq<Armed<T>>, base: int, k: nat)
    requires NonNegative(q) && k < |q|
    ensures Deadlines(q, base)[k].when >= base + q[k].delta
  {
    if k > 0 {
      DeadlineAtLeast(q[1..], base + q[0].delta, k - 1);
    }
  }

  /** The first timer that fires when the log has come so far */
  lemma {:induction false} NotedNext<T(!new)>(done: seq<T>, fired: seq<T>, notes: Notes<T>, q: seq<Armed<T>>, at: int)
    requires done <= fired && |done| < |fired|
    ensures var notes', log, x := Noted(done, notes, q, at), Noted(fired, notes, q, at).log, fired[|done|];
      |notes'.log| < |log| && log[|notes'.log|] == Firing(x, notes'.due(x), at)
  {
    hide Period;
    var rest := fired[|done|..];
    assert fired == done + rest;
    NotedConcat(done, rest, notes, q, at);
    NotedMore(rest[1..], NotedOne(rest[0], Noted(done, notes, q, at), q, at), q, at);
  }

  /** If the last due timer is armed again with the earliest deadline left, then the next timer fires too early. */
  lemma FiresEarly<T(!new)>(w: World<T>, tdiff: nat)
    requires OnCourse(w, true) && w.queue != [] && tdiff <= w.queue[0].delta && !Apart(w, Pass(tdiff))
    ensures !LogInTime(Step(w, Pass(tdiff)).notes.log, false)
  {
    hide Insert, Sweep, Meets, Leading, Rearmed, Kept, Noted, Sleeps;
    var q, n, at := w.queue, Together(w.queue), w.now + tdiff;
    StartsNonNegative(w);
    TickFiresDueIff(q, tdiff);
    var fired, due := Update(q, tdiff).fired, Timers(q[..n]);
    SleepsByNotes(w, fired[n]);
    NotedNext(due, fired, w.notes, q, at);
    var k, log := |Noted(due, w.notes, q, at).log|, Step(w, Pass(tdiff)).notes.log;
    assert !InTime(log[k].due, log[k].at, false);
  }

  lemma StartsNonNegative<T(!new)>(w: World<T>)
    requires OnCourse(w, true)
    ensures NonNegative(w.queue)
  {
  }

  /** A tick that goes beyond the first deadline makes the first timer late. */
  lemma FiresLate<T(!new)>(w: World<T>, tdiff: nat)
    requires OnCourse(w, true) && w.queue != [] && tdiff > w.queue[0].delta
    ensures !LogInTime(Step(w, Pass(tdiff)).notes.log, true)
  {
    hide Insert, Sweep, Meets, Leading, Rearmed, Deadlines, AllInTime, NoDup;
    var q, fired, at := w.queue, Update(w.queue, tdiff).fired, w.now + tdiff;
    TickFiresDueIff(q, tdiff);
    assert fired[0] == Timers(q[..Together(q)])[0] == q[0].timer;
    NotedNext([], fired, w.notes, q, at);
    FirstDue(w);
    assert !InTime(Step(w, Pass(tdiff)).notes.log[|w.notes.log|].due, at, true);
  }

  lemma FirstDue<T(!new)>(w: World<T>)
    requires OnCourse(w, true) && w.queue != []
    ensures w.notes.due(w.queue[0].timer) == w.now + w.queue[0].delta
  {
    var r := Deadlines(w.queue, 0);
    assert InTime(w.notes.due(r[0].timer), w.now + r[0].when, true);
  }

  /** A queue that is exactly on time stays so over a tick just when the tick does not overstep the first deadline and
      does not arm the last due timer again with the earliest deadline left. If it does not overstep, then something
      fires before its time just when it does that. */
  lemma OnTimeIff<T(!new)>(w: World<T>, tdiff: nat)
    requires OnCourse(w, true) && w.queue != []
    ensures OnCourse(Step(w, Pass(tdiff)), true) <==> tdiff <= w.queue[0].delta && Apart(w, Pass(tdiff))
    ensures tdiff <= w.queue[0].delta ==> (OnCourse(Step(w, Pass(tdiff)), false) <==> Apart(w, Pass(tdiff)))
  {
    hide Insert, Sweep, Noted, Apart;
    if tdiff > w.queue[0].delta {
      FiresLate(w, tdiff);
    } else if Apart(w, Pass(tdiff)) {
      PassOnCourse(w, tdiff, true);
    } else {
      FiresEarly(w, tdiff);
    }
  }

  lemma FiredTogether<T>(a: T, b: T)
    ensures var q := [Armed(a, 3, 5, -1), Armed(b, 5, 8, 0)];
      Update(q, 10).fired == [a, b] && Together(q) == 1 && Meets(q[..1], FirstDelta(q[1..]))
  {
    var p, q := Armed(a, 3, 5, -1), Armed(b, 5, 8, 0);
    var e := Elapse([p, q], 10);
    assert e == [Less(p, 10), q] && e[1..] == [q] && [] + [q] == [q] && [p, q][1..] == [q];
    var r := Insert([q], Again(p));
    assert r == [Again(p), Less(q, 5)] && r[..1] == [Again(p)] && r[1..] == [Less(q, 5)] && [Less(q, 5)][1..] == [];
    assert Sweep([Again(p)], []) == Outcome([Again(p)], []);
    assert Sweep([Again(p)], [Less(q, 5)]) == Outcome([Again(p)], [b]);
    assert [p, q][..1] == [p] && [p][..0] == [];
  }

  /** Two timers due at 3 and 8, of which the first one arms itself again: if the tick oversteps both deadlines, then
      nothing fires before its time although the second one is fired along with the first. */
  lemma OversteppedTogether<T(!new)>(a: T, b: T, due: T -> int)
    requires a != b && due(a) == 3 && due(b) == 8
    ensures var w := World(0, [Armed(a, 3, 5, -1), Armed(b, 5, 8, 0)], Notes(due, []));
      OnCourse(w, true) && !Apart(w, Pass(10)) && Step(w, Pass(10)).notes.log == [Firing(a, 3, 10), Firing(b, 8, 10)]
  {
    hide Insert, Sweep, Meets, Leading;
    var p, q, notes := Armed(a, 3, 5, -1), Armed(b, 5, 8, 0), Notes(due, []);
    var all := [p] + [q];
    assert all == [p, q];
    DeadlinesCons(p, [q], 0);
    FiredTogether(a, b);
    var one := NotedOne(a, notes, all, 10);
    assert [a, b][1..] == [b] && [b][1..] == [];
    assert Noted([a, b], notes, all, 10) == Noted([b], one, all, 10) == Noted([], NotedOne(b, one, all, 10), all, 10);
  }

  /** Timers due at 3 and 8: a tick of 4 fires the first one late, and leaves the second one due at 9. */
  lemma OversteppedLate<T(!new)>(a: T, b: T, due: T -> int)
    requires a != b && due(a) == 3 && due(b) == 8
    ensures var w := World(0, [Armed(a, 3, 3, 0), Armed(b, 5, 8, 0)], Notes(due, []));
      && OnCourse(w, true) && Step(w, Pass(4)).notes.log == [Firing(a, 3, 4)]
      && Deadlines(Step(w, Pass(4)).queue, 4) == [Due(b, 9)]
  {
    var p, q := Armed(a, 3, 3, 0), Armed(b, 5, 8, 0);
    var w := World(0, [p] + [q], Notes(due, []));
    assert [p] + [q] == [p, q];
    DeadlinesCons(p, [q], 0);
    LongTick([p, q], 4);
    assert Leading([q]) == 0 && [p, q][1..] == [q] && Timers([p, q][..1]) == [a];
    assert Noted([a][1..], NotedOne(a, Notes(due, []), [p, q], 4), [p, q], 4).log == [Firing(a, 3, 4)];
  }

  /** A run in which no tick is as Apart shuts out, and if gentle, none oversteps the first deadline */
  ghost predicate LegalRun<T(!new)>(w: World<T>, es: seq<Event<T>>, apart: bool, gentle: bool)
    decreases |es|
  {
    || es == []
    || (Legal(w, es[0]) && (apart ==> Apart(w, es[0])) && (gentle ==> Gentle(w, es[0]))
        && LegalRun(Step(w, es[0]), es[1..], apart, gentle))
  }

  ghost function Run<T(!new)>(w: World<T>, es: seq<Event<T>>): World<T>
    requires LegalRun(w, es, false, false)
    decreases |es|
  {
    if es == [] then w else Run(Step(w, es[0]), es[1..])
  }

  lemma {:induction false} RunOnCourse<T(!new)>(w: World<T>, es: seq<Event<T>>, exact: bool)
    requires OnCourse(w, exact) && LegalRun(w, es, true, exact)
    ensures LegalRun(w, es, false, false) && OnCourse(Run(w, es), exact)
    decreases |es|
  {
    if es != [] {
      StepOnCourse(w, es[0], exact);
      RunOnCourse(Step(w, es[0]), es[1..], exact);
    }
  }

  /** Whatever timers are added and removed, arm themselves again any number of times, and however the clock ticks: if
      no tick arms the last due timer again with the earliest deadline left, then no timer fires before its time. */
  lemma {:induction false} NeverEarly<T(!new)>(es: seq<Event<T>>, now: int, due: T -> int)
    requires LegalRun(World(now, [], Notes(due, [])), es, true, false)
    ensures LegalRun(World(now, [], Notes(due, [])), es, false, false)
    ensures var log := Run(World(now, [], Notes(due, [])), es).notes.log;
      forall i :: 0 <= i < |log| ==> log[i].at >= log[i].due
  {
    RunOnCourse(World(now, [], Notes(due, [])), es, false);
  }

  /** And if no tick oversteps the first deadline, every timer fires just then. */
  lemma {:induction false} OnTime<T(!new)>(es: seq<Event<T>>, now: int, due: T -> int)
    requires LegalRun(World(now, [], Notes(due, [])), es, true, true)
    ensures LegalRun(World(now, [], Notes(due, [])), es, false, false)
    ensures var log := Run(World(now, [], Notes(due, [])), es).notes.log;
      forall i :: 0 <= i < |log| ==> log[i].at == log[i].due
  {
    RunOnCourse(World(now, [], Notes(due, [])), es, true);
  }

  ghost predicate OneShots<T(!new)>(es: seq<Event<T>>) {
    forall i :: 0 <= i < |es| && es[i].Arm? ==> es[i].restart in {0, 1}
  }

  lemma OneShotStep<T(!new)>(w: World<T>, e: Event<T>)
    requires OneShot(w.queue) && NonNegative(w.queue) && Legal(w, e) && OneShots([e])
    ensures Apart(w, e) && OneShot(Step(w, e).queue) && NonNegative(Step(w, e).queue)
  {
    match e {
      case Arm(timer, s, restart) =>
        assert [e][0].Arm?;
        InsertOneShot(w.queue, Armed(timer, Max(s, 0), s, restart));
        InsertNonNegative(w.queue, Armed(timer, Max(s, 0), s, restart));
      case Disarm(place) => TakeOutNonNegative(w.queue, place, w.queue[place].delta);
      case Pass(tdiff) => OneShotTick(w.queue, tdiff);
    }
  }

  lemma OneShotTick<T>(q: seq<Armed<T>>, tdiff: nat)
    requires OneShot(q) && NonNegative(q)
    ensures OneShot(Update(q, tdiff).queue) && NonNegative(Update(q, tdiff).queue)
  {
    if q == [] {
    } else if q[0].delta <= tdiff {
      LongTick(q, tdiff);
    } else {
      ShortTick(q, tdiff);
    }
  }

  lemma {:induction false} InsertOneShot<T>(q: seq<Armed<T>>, a: Armed<T>)
    requires OneShot(q) && a.restart in {0, 1}
    ensures OneShot(Insert(q, a))
  {
    if q != [] && q[0].delta < a.delta {
      InsertOneShot(q[1..], Less(a, q[0].delta));
    }
  }

  /** With timers that fire once only, every run is of this kind. */
  lemma {:induction false} OneShotRun<T(!new)>(w: World<T>, es: seq<Event<T>>, gentle: bool)
    requires OneShot(w.queue) && NonNegative(w.queue) && OneShots(es) && LegalRun(w, es, false, gentle)
    ensures LegalRun(w, es, true, gentle)
    decreases |es|
  {
    if es != [] {
      OneShotStep(w, es[0]);
      OneShotRun(Step(w, es[0]), es[1..], gentle);
    }
  }
}
