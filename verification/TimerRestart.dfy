/** How often a timer of src/Timer.c fires: its restart count, over ticks and over whole runs. */
module TimerRestart {
  import opened Common
  import opened TimerQueue

  /** Timer x is in the queue; it is due after `when`, and has this maxtime and this restart count. */
  ghost predicate Stands<T>(q: seq<Armed<T>>, x: T, when: int, maxtime: int, restart: int)
    decreases |q|
  {
    && q != []
    && if q[0].timer == x then q[0].delta == when && q[0].maxtime == maxtime && q[0].restart == restart
       else Stands(q[1..], x, when - q[0].delta, maxtime, restart)
  }

  /** That is what the deadlines have it as. */
  lemma {:induction false} StandsInPlace<T>(q: seq<Armed<T>>, x: T, when: int, maxtime: int, restart: int, base: int)
    requires Stands(q, x, when, maxtime, restart)
    ensures exists k :: 0 <= k < |q| && Deadlines(q, base)[k] == Due(x, base + when)
                        && (q[k].timer, q[k].maxtime, q[k].restart) == (x, maxtime, restart)
    decreases |q|
  {
    if q[0].timer == x {
      assert Deadlines(q, base)[0] == Due(x, base + when);
    } else {
      StandsInPlace(q[1..], x, when - q[0].delta, maxtime, restart, base + q[0].delta);
      var k :| 0 <= k < |q[1..]| && Deadlines(q[1..], base + q[0].delta)[k] == Due(x, base + when)
        && (q[1..][k].timer, q[1..][k].maxtime, q[1..][k].restart) == (x, maxtime, restart);
      assert Deadlines(q, base)[k + 1] == Due(x, base + when) && q[k + 1] == q[1..][k];
    }
  }

  lemma {:induction false} StandsIn<T>(q: seq<Armed<T>>, x: T, when: int, maxtime: int, restart: int)
    requires Stands(q, x, when, maxtime, restart)
    ensures x in Timers(q)
    decreases |q|
  {
    if q[0].timer == x {
      assert Timers(q)[0] == x;
    } else {
      StandsIn(q[1..], x, when - q[0].delta, maxtime, restart);
      assert Timers(q) == [q[0].timer] + Timers(q[1..]);
    }
  }

  /** How many times x is in s */
  ghost function Times<T>(s: seq<T>, x: T): nat {
    if s == [] then 0 else (if s[0] == x then 1 else 0) + Times(s[1..], x)
  }

  /** What has become of a timer that was due after `when`, after it has fired c times: as long as its count lasts,
      it is armed again with one less each time, and due after its maxtime from the last time on; then it is in no
      queue. A count of 0 is good for one time, and a negative one lasts for ever. */
  ghost predicate Fate<T>(q: seq<Armed<T>>, x: T, when: int, maxtime: int, restart: int, c: nat) {
    var w := if c == 0 then when else Max(maxtime, 0);
    if restart < 0 then Stands(q, x, w, maxtime, restart)
    else if c < Max(restart, 1) then Stands(q, x, w, maxtime, restart - c)
    else c == Max(restart, 1) && x !in Timers(q)
  }

  /** No timer is in the queue twice. */
  ghost predicate Fine<T>(q: seq<Armed<T>>) {
    NonNegative(q) && NoDup(Timers(q))
  }

  // ---------------------------------------------------------------- single operations

  lemma {:induction false} InsertStands<T>(q: seq<Armed<T>>, a: Armed<T>, x: T, when: int, maxtime: int, restart: int)
    requires x != a.timer
    ensures Stands(Insert(q, a), x, when, maxtime, restart) <==> Stands(q, x, when, maxtime, restart)
    decreases |q|
  {
    if q == [] {
      assert [a][1..] == [];
    } else if q[0].delta >= a.delta {
      var t := [Less(q[0], a.delta)] + q[1..];
      assert Insert(q, a) == [a] + t && ([a] + t)[1..] == t && t[1..] == q[1..];
    } else {
      var r := Less(a, q[0].delta);
      InsertStands(q[1..], r, x, when - q[0].delta, maxtime, restart);
      assert ([q[0]] + Insert(q[1..], r))[1..] == Insert(q[1..], r);
    }
  }

  lemma {:induction false} Inserted<T>(q: seq<Armed<T>>, a: Armed<T>)
    requires a.timer !in Timers(q)
    ensures Stands(Insert(q, a), a.timer, a.delta, a.maxtime, a.restart)
    decreases |q|
  {
    if q != [] && q[0].delta < a.delta {
      var r := Less(a, q[0].delta);
      assert Timers(q)[0] == q[0].timer && Timers(q[1..]) == Timers(q)[1..];
      Inserted(q[1..], r);
      assert ([q[0]] + Insert(q[1..], r))[1..] == Insert(q[1..], r);
    }
  }

  lemma InsertFine<T>(q: seq<Armed<T>>, a: Armed<T>)
    requires Fine(q) && a.delta >= 0 && a.timer !in Timers(q)
    ensures Fine(Insert(q, a))
  {
    InsertNonNegative(q, a);
    InsertTimers(q, a);
    DistinctAt(Timers(q), Place(q, a.delta), a.timer);
  }

  lemma InsertAbsent<T>(q: seq<Armed<T>>, a: Armed<T>, x: T)
    requires x !in Timers(q) && x != a.timer
    ensures x !in Timers(Insert(q, a))
  {
    InsertTimers(q, a);
    InAt(Timers(q), Place(q, a.delta), a.timer, x);
  }

  /** A timer is taken out from between the others: none of these minds. */
  lemma {:induction false} TakeOutStands<T>(q: seq<Armed<T>>, k: nat, x: T, when: int, maxtime: int, restart: int)
    requires k < |q| && x != q[k].timer && q[k].delta >= 0
    ensures Stands(TakeOut(q, k, q[k].delta), x, when, maxtime, restart) <==> Stands(q, x, when, maxtime, restart)
    decreases |q|
  {
    var d := q[k].delta;
    if k > 0 {
      TakeOutCons(q, k, d);
      TakeOutStands(q[1..], k - 1, x, when - q[0].delta, maxtime, restart);
      assert ([q[0]] + TakeOut(q[1..], k - 1, d))[1..] == TakeOut(q[1..], k - 1, d);
    } else if |q| > 1 {
      var t := TakeOut(q, 0, d);
      assert t == [Less(q[1], -d)] + q[2..] && t[1..] == q[2..] == q[1..][1..];
    }
  }

  lemma TakeOutFine<T>(q: seq<Armed<T>>, k: nat)
    requires Fine(q) && k < |q|
    ensures Fine(TakeOut(q, k, q[k].delta)) && Timers(TakeOut(q, k, q[k].delta)) == Others(Timers(q), k)
    ensures q[k].timer !in Timers(TakeOut(q, k, q[k].delta))
  {
    TakeOutNonNegative(q, k, q[k].delta);
    assert Timers(TakeOut(q, k, q[k].delta)) == Others(Timers(q), k);
    assert Timers(q)[k] == q[k].timer;
  }

  /** The first delta counts for all. */
  lemma SooneredFirst<T>(q: seq<Armed<T>>, d: int, x: T, when: int, maxtime: int, restart: int)
    requires q != []
    ensures Stands([Less(q[0], d)] + q[1..], x, when - d, maxtime, restart) <==> Stands(q, x, when, maxtime, restart)
  {
    assert ([Less(q[0], d)] + q[1..])[1..] == q[1..];
  }

  // ---------------------------------------------------------------- one turn of the loop

  /** The first timer of todo, whose delta is 0, is taken out. */
  lemma {:induction false} DroppedStands<T>(done: seq<Armed<T>>, todo: seq<Armed<T>>, x: T, when: int, maxtime: int,
                                            restart: int)
    requires todo != [] && todo[0].delta == 0 && x != todo[0].timer
    ensures Stands(done + todo[1..], x, when, maxtime, restart) <==> Stands(done + todo, x, when, maxtime, restart)
    decreases |done|
  {
    if done == [] {
      assert done + todo == todo && done + todo[1..] == todo[1..];
    } else {
      DroppedStands(done[1..], todo, x, when - done[0].delta, maxtime, restart);
      assert (done + todo)[1..] == done[1..] + todo && (done + todo[1..])[1..] == done[1..] + todo[1..];
    }
  }

  lemma DroppedFine<T>(done: seq<Armed<T>>, todo: seq<Armed<T>>)
    requires Fine(done + todo) && todo != []
    ensures Fine(done + todo[1..]) && todo[0].timer !in Timers(done + todo[1..])
    ensures forall x :: x in Timers(done + todo[1..]) ==> x in Timers(done + todo)
  {
    var ts, k := Timers(done + todo), |done|;
    assert Timers(done + todo[1..]) == ts[..k] + ts[k + 1..] && ts[k] == todo[0].timer;
  }

  lemma TurnFine<T>(done: seq<Armed<T>>, todo: seq<Armed<T>>)
    requires Fine(done + todo) && todo != []
    ensures Fine(AfterTurn(done, todo))
    ensures forall x :: x in Timers(AfterTurn(done, todo)) ==> x in Timers(done + todo)
  {
    var rest, a := done + todo[1..], Again(todo[0]);
    DroppedFine(done, todo);
    assert Timers(done + todo)[|done|] == a.timer;
    if a.restart != 0 {
      InsertFine(rest, a);
      forall x | x in Timers(Insert(rest, a))
        ensures x in Timers(done + todo)
      {
        InsertTimers(rest, a);
        InAt(Timers(rest), Place(rest, a.delta), a.timer, x);
      }
    }
  }

  /** Others stay as they are. */
  lemma TurnOfOther<T>(done: seq<Armed<T>>, todo: seq<Armed<T>>, x: T, when: int, maxtime: int, restart: int)
    requires todo != [] && todo[0].delta == 0 && x != todo[0].timer
    ensures Stands(AfterTurn(done, todo), x, when, maxtime, restart) <==> Stands(done + todo, x, when, maxtime, restart)
  {
    DroppedStands(done, todo, x, when, maxtime, restart);
    InsertStands(done + todo[1..], Again(todo[0]), x, when, maxtime, restart);
  }

  /** The one that fires is armed again unless this was the last time. */
  lemma TurnOfItself<T>(done: seq<Armed<T>>, todo: seq<Armed<T>>)
    requires Fine(done + todo) && todo != []
    ensures var h := todo[0];
      if h.restart in {0, 1} then h.timer !in Timers(AfterTurn(done, todo))
      else Stands(AfterTurn(done, todo), h.timer, Max(h.maxtime, 0), h.maxtime,
                  if h.restart > 0 then h.restart - 1 else h.restart)
  {
    DroppedFine(done, todo);
    Inserted(done + todo[1..], Again(todo[0]));
  }

  lemma {:induction false} StandsOnce<T>(done: seq<Armed<T>>, todo: seq<Armed<T>>, when: int, maxtime: int,
                                         restart: int)
    requires Fine(done + todo) && todo != [] && Stands(done + todo, todo[0].timer, when, maxtime, restart)
    ensures maxtime == todo[0].maxtime && restart == todo[0].restart
    decreases |done|
  {
    if done == [] {
      assert done + todo == todo;
    } else {
      var q := done + todo;
      assert q[1..] == done[1..] + todo;
      assert Timers(q)[|done|] == todo[0].timer != Timers(q)[0] == done[0].timer;
      assert Timers(q[1..]) == Timers(q)[1..];
      StandsOnce(done[1..], todo, when - done[0].delta, maxtime, restart);
    }
  }

  // ---------------------------------------------------------------- the whole loop

  lemma {:induction false} SweepFine<T>(done: seq<Armed<T>>, todo: seq<Armed<T>>)
    requires Fine(done + todo)
    ensures Fine(Sweep(done, todo).queue)
    decreases |todo|, Leading(todo)
  {
    hide AfterTurn, NextPlace, NoDup, NonNegative;
    if todo != [] && todo[0].delta <= 0 {
      var e, m := AfterTurn(done, todo), NextPlace(done, todo);
      TurnTaken(done, todo);
      TurnFine(done, todo);
      assert e[..m] + e[m..] == e;
      SweepFine(e[..m], e[m..]);
    }
  }

  lemma {:induction false} SweepAbsent<T>(done: seq<Armed<T>>, todo: seq<Armed<T>>, x: T)
    requires Fine(done + todo) && x !in Timers(done + todo)
    ensures x !in Timers(Sweep(done, todo).queue) && Times(Sweep(done, todo).fired, x) == 0
    decreases |todo|, Leading(todo)
  {
    hide AfterTurn, NextPlace, NoDup, NonNegative;
    if todo != [] && todo[0].delta <= 0 {
      var e, m := AfterTurn(done, todo), NextPlace(done, todo);
      TurnTaken(done, todo);
      TurnFine(done, todo);
      assert e[..m] + e[m..] == e;
      SweepAbsent(e[..m], e[m..], x);
      assert Timers(done + todo)[|done|] == todo[0].timer;
      AlsoTimes(todo[0].timer, Sweep(e[..m], e[m..]).fired, x);
    }
  }

  lemma {:induction false} AlsoTimes<T>(t: T, fired: seq<T>, x: T)
    ensures Times([t] + fired, x) == (if t == x then 1 else 0) + Times(fired, x)
  {
  }

  lemma {:induction false} SweepFate<T>(done: seq<Armed<T>>, todo: seq<Armed<T>>, x: T, when: int, maxtime: int,
                                        restart: int)
    requires Fine(done + todo) && Stands(done + todo, x, when, maxtime, restart)
    ensures var r := Sweep(done, todo); Fate(r.queue, x, when, maxtime, restart, Times(r.fired, x))
    decreases |todo|, Leading(todo)
  {
    hide AfterTurn, NextPlace, NoDup, Stands, Times;
    if todo == [] || todo[0].delta > 0 {
      NoTimes(x);
    } else {
      assert (done + todo)[|done|] == todo[0];
      var e, m, h := AfterTurn(done, todo), NextPlace(done, todo), todo[0];
      TurnTaken(done, todo);
      TurnFine(done, todo);
      assert e[..m] + e[m..] == e;
      AlsoTimes(h.timer, Sweep(e[..m], e[m..]).fired, x);
      if h.timer != x {
        TurnOfOther(done, todo, x, when, maxtime, restart);
        SweepFate(e[..m], e[m..], x, when, maxtime, restart);
      } else {
        StandsOnce(done, todo, when, maxtime, restart);
        TurnOfItself(done, todo);
        if restart in {0, 1} {
          SweepAbsent(e[..m], e[m..], x);
        } else {
          SweepFate(e[..m], e[m..], x, Max(maxtime, 0), maxtime, if restart > 0 then restart - 1 else restart);
        }
      }
    }
  }

  lemma NoTimes<T>(x: T)
    ensures Times([], x) == 0
  {
  }

  // ---------------------------------------------------------------- one tick

  /** By how much a tick brings the deadlines nearer: what goes beyond the first one is not carried over. */
  ghost function Nearer<T>(q: seq<Armed<T>>, tdiff: int): int
    requires q != []
  {
    Min(Max(tdiff, 0), q[0].delta)
  }

  /** The first delta of a queue makes no difference to the loop once it is due. */
  lemma {:induction false} SweepFromZero<T>(q: seq<Armed<T>>, d: int)
    requires q != [] && d >= q[0].delta
    ensures Sweep([], [Less(q[0], d)] + q[1..]) == Sweep([], [Less(q[0], q[0].delta)] + q[1..])
  {
    var e, z := [Less(q[0], d)] + q[1..], [Less(q[0], q[0].delta)] + q[1..];
    assert e[1..] == z[1..] && Again(e[0]) == Again(z[0]);
  }

  /** The queue as the loop finds it, but for the first delta if it is due */
  ghost function AtLoop<T>(q: seq<Armed<T>>, tdiff: int): seq<Armed<T>>
    requires q != []
  {
    [Less(q[0], Nearer(q, tdiff))] + q[1..]
  }

  lemma AtLoopFine<T>(q: seq<Armed<T>>, tdiff: int)
    requires Fine(q) && q != []
    ensures Fine(AtLoop(q, tdiff)) && Timers(AtLoop(q, tdiff)) == Timers(q)
    ensures Update(q, tdiff) == Sweep([], AtLoop(q, tdiff)) && [] + AtLoop(q, tdiff) == AtLoop(q, tdiff)
  {
    hide Sweep;
    assert Timers(AtLoop(q, tdiff)) == Timers(q);
    SweepFromZero(q, Max(q[0].delta, Max(tdiff, 0)));
  }

  lemma TickFine<T>(q: seq<Armed<T>>, tdiff: int)
    requires Fine(q)
    ensures Fine(Update(q, tdiff).queue)
  {
    hide Fine;
    if q != [] {
      AtLoopFine(q, tdiff);
      SweepFine([], AtLoop(q, tdiff));
    } else {
      assert Update(q, tdiff).queue == [] + q == q;
    }
  }

  /** What a tick makes of any timer in the queue, whatever the others do */
  lemma TickFate<T>(q: seq<Armed<T>>, tdiff: int, x: T, when: int, maxtime: int, restart: int)
    requires Fine(q) && Stands(q, x, when, maxtime, restart)
    ensures var r := Update(q, tdiff);
      Fate(r.queue, x, when - Nearer(q, tdiff), maxtime, restart, Times(r.fired, x))
  {
    hide Sweep, Fine;
    AtLoopFine(q, tdiff);
    SooneredFirst(q, Nearer(q, tdiff), x, when, maxtime, restart);
    SweepFate([], AtLoop(q, tdiff), x, when - Nearer(q, tdiff), maxtime, restart);
  }

  lemma TickAbsent<T>(q: seq<Armed<T>>, tdiff: int, x: T)
    requires Fine(q) && x !in Timers(q)
    ensures x !in Timers(Update(q, tdiff).queue) && Times(Update(q, tdiff).fired, x) == 0
  {
    if q != [] {
      AtLoopFine(q, tdiff);
      SweepAbsent([], AtLoop(q, tdiff), x);
    }
  }

  // ---------------------------------------------------------------- whole runs

  /** How many times x has been noted in the log */
  ghost function Firings<T>(log: seq<Firing<T>>, x: T): nat {
    if log == [] then 0
    else Firings(log[..|log| - 1], x) + if log[|log| - 1].timer == x then 1 else 0
  }

  lemma {:induction false} NotedFirings<T(!new)>(fired: seq<T>, notes: Notes<T>, q: seq<Armed<T>>, at: int, x: T)
    ensures Firings(Noted(fired, notes, q, at).log, x) == Firings(notes.log, x) + Times(fired, x)
  {
    if fired != [] {
      var one := NotedOne(fired[0], notes, q, at);
      assert one.log[..|one.log| - 1] == notes.log;
      NotedFirings(fired[1..], one, q, at, x);
    }
  }

  /** The run neither arms x nor takes it out. */
  ghost predicate LeftAlone<T(!new)>(w: World<T>, es: seq<Event<T>>, x: T)
    requires LegalRun(w, es, false, false)
    decreases |es|
  {
    es != [] ==>
      && (es[0].Arm? ==> es[0].timer != x) && (es[0].Disarm? ==> w.queue[es[0].place].timer != x)
      && LeftAlone(Step(w, es[0]), es[1..], x)
  }

  lemma StepFine<T(!new)>(w: World<T>, e: Event<T>)
    requires Fine(w.queue) && Legal(w, e)
    ensures Fine(Step(w, e).queue)
  {
    match e {
      case Arm(timer, s, restart) => InsertFine(w.queue, Armed(timer, Max(s, 0), s, restart));
      case Disarm(place) => TakeOutFine(w.queue, place);
      case Pass(tdiff) => TickFine(w.queue, tdiff);
    }
  }

  /** What one event makes of a timer that it does not arm or take out; c is how many times it makes it fire. */
  lemma StepFate<T(!new)>(w: World<T>, e: Event<T>, x: T, when: int, maxtime: int, restart: int) returns (c: nat)
    requires Fine(w.queue) && Legal(w, e) && Stands(w.queue, x, when, maxtime, restart)
    requires (e.Arm? ==> e.timer != x) && (e.Disarm? ==> w.queue[e.place].timer != x)
    ensures Firings(Step(w, e).notes.log, x) == Firings(w.notes.log, x) + c && (c > 0 ==> e.Pass?) && w.queue != []
    ensures var d := if e.Pass? then Nearer(w.queue, e.tdiff) else 0;
      Fate(Step(w, e).queue, x, when - d, maxtime, restart, c)
  {
    hide Insert, TakeOut, Update, Noted, Firings, Times;
    c := 0;
    match e {
      case Arm(timer, s, r) =>
        InsertStands(w.queue, Armed(timer, Max(s, 0), s, r), x, when, maxtime, restart);
      case Disarm(place) => TakeOutStands(w.queue, place, x, when, maxtime, restart);
      case Pass(tdiff) =>
        var fired := Update(w.queue, tdiff).fired;
        c := Times(fired, x);
        TickFate(w.queue, tdiff, x, when, maxtime, restart);
        NotedFirings(fired, w.notes, w.queue, w.now + tdiff, x);
    }
  }

  lemma StepAbsent<T(!new)>(w: World<T>, e: Event<T>, x: T)
    requires Fine(w.queue) && Legal(w, e) && x !in Timers(w.queue) && (e.Arm? ==> e.timer != x)
    ensures x !in Timers(Step(w, e).queue) && Firings(Step(w, e).notes.log, x) == Firings(w.notes.log, x)
  {
    hide Insert, TakeOut, Update, Noted, Firings, Times;
    match e {
      case Arm(timer, s, r) => InsertAbsent(w.queue, Armed(timer, Max(s, 0), s, r), x);
      case Disarm(place) => TakeOutFine(w.queue, place);
      case Pass(tdiff) =>
        TickAbsent(w.queue, tdiff, x);
        NotedFirings(Update(w.queue, tdiff).fired, w.notes, w.queue, w.now + tdiff, x);
    }
  }

  lemma {:induction false} RunAbsent<T(!new)>(w: World<T>, es: seq<Event<T>>, x: T)
    requires Fine(w.queue) && LegalRun(w, es, false, false) && LeftAlone(w, es, x) && x !in Timers(w.queue)
    ensures x !in Timers(Run(w, es).queue) && Firings(Run(w, es).notes.log, x) == Firings(w.notes.log, x)
    decreases |es|
  {
    hide Step, Fine, Firings, Timers;
    if es != [] {
      StepFine(w, es[0]);
      StepAbsent(w, es[0], x);
      RunAbsent(Step(w, es[0]), es[1..], x);
    }
  }

  /** Over every run, however the clock ticks and whatever other timers do: a timer of restart count r > 0 fires r
      times at most. As long as it has not, it stands in the queue with what is left of its count; and as soon as it
      has, it is in no queue. With a count of 0 it fires once, and with a negative one it is in the queue after every
      firing. */
  lemma {:induction false} CountedDown<T(!new)>(w: World<T>, es: seq<Event<T>>, x: T, when: int, maxtime: int,
                                               restart: int)
    returns (c: nat, when': int)
    requires Fine(w.queue) && LegalRun(w, es, false, false) && LeftAlone(w, es, x)
    requires Stands(w.queue, x, when, maxtime, restart)
    ensures Firings(Run(w, es).notes.log, x) == Firings(w.notes.log, x) + c
    ensures var q := Run(w, es).queue;
      if restart < 0 then Stands(q, x, when', maxtime, restart)
      else if c < Max(restart, 1) then Stands(q, x, when', maxtime, restart - c)
      else c == Max(restart, 1) && x !in Timers(q)
    decreases |es|
  {
    hide Step, Fine, Firings, Timers, Stands;
    if es == [] {
      c, when' := 0, when;
    } else {
      var e, v := es[0], Step(w, es[0]);
      StepFine(w, e);
      var c0 := StepFate(w, e, x, when, maxtime, restart);
      var now := if c0 > 0 then Max(maxtime, 0) else when - if e.Pass? then Nearer(w.queue, e.tdiff) else 0;
      if restart >= 0 && c0 == Max(restart, 1) {
        RunAbsent(v, es[1..], x);
        c, when' := c0, 0;
      } else {
        var left := if restart < 0 then restart else restart - c0;
        c, when' := CountedDown(v, es[1..], x, now, maxtime, left);
        c := c0 + c;
      }
    }
  }

  // ---------------------------------------------------------------- enough ticks

  /** A timer that arms itself again for ever has a period. */
  ghost predicate Lasting<T>(q: seq<Armed<T>>) {
    forall i :: 0 <= i < |q| ==> q[i].restart >= 0 || q[i].maxtime > 0
  }

  /** Nothing is due at the moment. */
  ghost predicate Waiting<T>(q: seq<Armed<T>>) {
    q != [] ==> q[0].delta > 0
  }

  /** How many ticks a timer may keep the others waiting, because it arms itself again without a period */
  ghost function Delay(maxtime: int, restart: int): nat {
    if maxtime <= 0 && restart > 1 then restart - 1 else 0
  }

  ghost function Delays<T>(q: seq<Armed<T>>): nat {
    if q == [] then 0 else Delay(q[0].maxtime, q[0].restart) + Delays(q[1..])
  }

  lemma {:induction false} DelaysConcat<T>(p: seq<Armed<T>>, q: seq<Armed<T>>)
    ensures Delays(p + q) == Delays(p) + Delays(q)
  {
    if p == [] {
      assert p + q == q;
    } else {
      DelaysConcat(p[1..], q);
      assert (p + q)[1..] == p[1..] + q;
    }
  }

  lemma {:induction false} InsertDelays<T>(q: seq<Armed<T>>, a: Armed<T>)
    ensures Delays(Insert(q, a)) == Delays(q) + Delay(a.maxtime, a.restart)
  {
    if q == [] {
      assert [a][1..] == [];
    } else if q[0].delta >= a.delta {
      var t := [Less(q[0], a.delta)] + q[1..];
      assert Insert(q, a) == [a] + t && ([a] + t)[1..] == t && t[1..] == q[1..];
    } else {
      var r := Less(a, q[0].delta);
      InsertDelays(q[1..], r);
      assert ([q[0]] + Insert(q[1..], r))[1..] == Insert(q[1..], r);
    }
  }

  lemma {:induction false} TakeOutDelays<T>(q: seq<Armed<T>>, k: nat, d: int)
    requires k < |q|
    ensures Delays(TakeOut(q, k, d)) <= Delays(q)
  {
    if k > 0 {
      TakeOutCons(q, k, d);
      TakeOutDelays(q[1..], k - 1, d);
      assert ([q[0]] + TakeOut(q[1..], k - 1, d))[1..] == TakeOut(q[1..], k - 1, d);
    } else if |q| > 1 {
      var t := TakeOut(q, 0, d);
      assert t == [Less(q[1], -Max(d, 0))] + q[2..] && t[1..] == q[2..] == q[1..][1..];
    }
  }

  lemma {:induction false} InsertLasting<T>(q: seq<Armed<T>>, a: Armed<T>)
    requires Lasting(q) && Lasting([a])
    ensures Lasting(Insert(q, a))
  {
    assert [a][0] == a;
    if q == [] {
    } else if q[0].delta >= a.delta {
      assert Insert(q, a) == [a] + ([Less(q[0], a.delta)] + q[1..]);
    } else {
      var r := Less(a, q[0].delta);
      assert Lasting([r]) && Lasting(q[1..]);
      InsertLasting(q[1..], r);
    }
  }

  lemma InsertFirstDelta<T>(q: seq<Armed<T>>, a: Armed<T>)
    ensures Insert(q, a) != []
    ensures Insert(q, a)[0].delta == if q != [] && q[0].delta < a.delta then q[0].delta else a.delta
  {
  }

  lemma TurnLasting<T>(done: seq<Armed<T>>, todo: seq<Armed<T>>)
    requires Lasting(done + todo) && todo != []
    ensures Lasting(AfterTurn(done, todo))
  {
    var rest, a := done + todo[1..], Again(todo[0]);
    assert (done + todo)[|done|] == todo[0];
    assert Lasting(rest) by {
      forall i | 0 <= i < |rest|
        ensures rest[i].restart >= 0 || rest[i].maxtime > 0
      {
        assert rest[i] == (done + todo)[if i < |done| then i else i + 1];
      }
    }
    if a.restart != 0 {
      assert Lasting([a]);
      InsertLasting(rest, a);
    }
  }

  /** A timer that is armed again without a period has less of its count left. */
  lemma TurnDelays<T>(done: seq<Armed<T>>, todo: seq<Armed<T>>)
    requires todo != []
    ensures var h := todo[0];
      Delays(AfterTurn(done, todo)) == Delays(done + todo) - if h.maxtime <= 0 && h.restart > 1 then 1 else 0
  {
    hide Insert;
    var rest, a := todo[1..], Again(todo[0]);
    DelaysConcat(done, todo);
    DelaysConcat(done, rest);
    InsertDelays(done + rest, a);
  }

  /** Once timers that sleep have been armed again in front of the loop, the first of them waits. */
  lemma TurnWaits<T>(done: seq<Armed<T>>, todo: seq<Armed<T>>)
    requires todo != [] && Waiting(done) && (todo[0].restart in {0, 1} || todo[0].maxtime > 0)
    ensures var e, m := AfterTurn(done, todo), NextPlace(done, todo); m <= |e| && Waiting(e[..m])
  {
    hide Insert;
    var rest, a := done + todo[1..], Again(todo[0]);
    TurnSlices(done, todo);
    if a.restart != 0 {
      InsertFirstDelta(rest, a);
    }
  }

  lemma TurnSlices<T>(done: seq<Armed<T>>, todo: seq<Armed<T>>)
    requires todo != []
    ensures NextPlace(done, todo) <= |AfterTurn(done, todo)|
  {
  }

  /** Either the first timer waits, or one of those without a period has fired; n is what there was to wait for. */
  ghost predicate Progress<T>(first: seq<Armed<T>>, q: seq<Armed<T>>, n: nat) {
    Delays(q) <= n && (Waiting(first) || Delays(q) < n)
  }

  lemma TurnProgress<T>(done: seq<Armed<T>>, todo: seq<Armed<T>>, n: nat)
    requires Lasting(done + todo) && todo != [] && Progress(done, done + todo, n)
    ensures var e, m := AfterTurn(done, todo), NextPlace(done, todo); m <= |e| && Progress(e[..m], e, n)
  {
    hide AfterTurn, NextPlace, Delays, Waiting;
    assert (done + todo)[|done|] == todo[0];
    TurnDelays(done, todo);
    TurnSlices(done, todo);
    if Waiting(done) && (todo[0].restart in {0, 1} || todo[0].maxtime > 0) {
      TurnWaits(done, todo);
    }
  }

  lemma {:induction false} SweepProgress<T>(done: seq<Armed<T>>, todo: seq<Armed<T>>, n: nat)
    requires Lasting(done + todo) && Progress(done, done + todo, n)
    ensures var q := Sweep(done, todo).queue; Lasting(q) && Progress(q, q, n)
    decreases |todo|, Leading(todo)
  {
    hide AfterTurn, NextPlace, Lasting, Delays;
    if todo != [] && todo[0].delta <= 0 {
      var e, m := AfterTurn(done, todo), NextPlace(done, todo);
      TurnTaken(done, todo);
      TurnLasting(done, todo);
      TurnProgress(done, todo, n);
      assert e[..m] + e[m..] == e;
      SweepProgress(e[..m], e[m..], n);
    }
  }

  lemma TickProgress<T>(q: seq<Armed<T>>, tdiff: int)
    requires Lasting(q)
    ensures var r := Update(q, tdiff).queue; Lasting(r) && Progress(r, r, Delays(q))
  {
    hide Sweep, Elapse, Lasting, Delays;
    var e := Elapse(q, tdiff);
    ElapseLasting(q, tdiff);
    assert [] + e == e;
    SweepProgress([], e, Delays(q));
  }

  lemma ElapseLasting<T>(q: seq<Armed<T>>, tdiff: int)
    requires Lasting(q)
    ensures Lasting(Elapse(q, tdiff)) && Delays(Elapse(q, tdiff)) == Delays(q)
  {
    if q != [] {
      assert Elapse(q, tdiff)[1..] == q[1..];
    }
  }

  /** How often the clock has moved */
  ghost function Ticks<T(!new)>(es: seq<Event<T>>): nat {
    if es == [] then 0 else (if es[0].Pass? && es[0].tdiff > 0 then 1 else 0) + Ticks(es[1..])
  }

  /** How many ticks what is armed on the way may cost: one if it is due at once, and what it keeps the others
      waiting */
  ghost function Costs<T(!new)>(es: seq<Event<T>>): nat {
    if es == [] then 0
    else (if es[0].Arm? then 1 + Delay(es[0].sleeptime, es[0].restart) else 0) + Costs(es[1..])
  }

  /** Whatever is armed and arms itself again for ever has a period. */
  ghost predicate Steady<T(!new)>(es: seq<Event<T>>) {
    forall i :: 0 <= i < |es| && es[i].Arm? ==> es[i].restart >= 0 || es[i].sleeptime > 0
  }

  lemma StepLasting<T(!new)>(w: World<T>, e: Event<T>)
    requires Lasting(w.queue) && Fine(w.queue) && Legal(w, e) && Steady([e])
    ensures var q := Step(w, e).queue;
      && Lasting(q)
      && match e
         case Arm(_, s, restart) => Delays(q) == Delays(w.queue) + Delay(s, restart)
         case Disarm(_) => Delays(q) <= Delays(w.queue) && (Waiting(w.queue) ==> Waiting(q))
         case Pass(_) => Progress(q, q, Delays(w.queue))
  {
    hide Insert, Update;
    match e {
      case Arm(timer, s, restart) =>
        assert [e][0].Arm?;
        InsertLasting(w.queue, Armed(timer, Max(s, 0), s, restart));
        InsertDelays(w.queue, Armed(timer, Max(s, 0), s, restart));
      case Disarm(place) =>
        TakeOutLasting(w.queue, place);
        TakeOutDelays(w.queue, place, w.queue[place].delta);
      case Pass(tdiff) => TickProgress(w.queue, tdiff);
    }
  }

  lemma TakeOutLasting<T>(q: seq<Armed<T>>, k: nat)
    requires Lasting(q) && NonNegative(q) && k < |q|
    ensures Lasting(TakeOut(q, k, q[k].delta)) && (Waiting(q) ==> Waiting(TakeOut(q, k, q[k].delta)))
  {
  }

  lemma {:induction false} RunFirings<T(!new)>(w: World<T>, es: seq<Event<T>>, x: T)
    requires LegalRun(w, es, false, false)
    ensures Firings(Run(w, es).notes.log, x) >= Firings(w.notes.log, x)
    decreases |es|
  {
    hide Firings, Noted, Update, Insert, TakeOut;
    if es != [] {
      var e := es[0];
      if e.Pass? {
        NotedFirings(Update(w.queue, e.tdiff).fired, w.notes, w.queue, w.now + e.tdiff, x);
      }
      RunFirings(Step(w, e), es[1..], x);
    }
  }

  lemma {:induction false} NotBeforeFirst<T>(q: seq<Armed<T>>, x: T, when: int, maxtime: int, restart: int)
    requires NonNegative(q) && Stands(q, x, when, maxtime, restart)
    ensures when >= q[0].delta
    decreases |q|
  {
    if q[0].timer != x {
      NotBeforeFirst(q[1..], x, when - q[0].delta, maxtime, restart);
    }
  }

  /** How many ticks it takes, at the most, until a timer has fired k times: one for each second that it sleeps, and
      those that are spent on what is due at once */
  ghost function Enough<T>(q: seq<Armed<T>>, when: int, maxtime: int, k: nat): int {
    when + (k - 1) * Max(maxtime, 0) + Delays(q) + if Waiting(q) then 0 else 1
  }

  lemma EnoughLeft<T>(q: seq<Armed<T>>, q': seq<Armed<T>>, when: int, maxtime: int, k: nat, c: nat)
    requires 0 < c < k && Progress(q', q', Delays(q)) && when >= 0 && (Waiting(q) ==> when > 0)
    ensures Enough(q', Max(maxtime, 0), maxtime, k - c) + 1 <= Enough(q, when, maxtime, k)
  {
    var p := Max(maxtime, 0);
    calc {
      p + (k - c - 1) * p;
      (k - c) * p;
    <= { LessTimes(k - c, k - 1, p); }
      (k - 1) * p;
    }
  }

  lemma LessTimes(a: int, b: int, p: int)
    requires a <= b && p >= 0
    ensures a * p <= b * p
  {
  }

  /** Enough ticks make a timer fire as often as its count lets it, whatever the other timers do, if none of them arms
      itself again for ever without a period. */
  lemma {:induction false} FiresInTheEnd<T(!new)>(w: World<T>, es: seq<Event<T>>, x: T, when: int, maxtime: int,
                                                  restart: int, k: nat)
    requires Fine(w.queue) && Lasting(w.queue) && Steady(es) && LegalRun(w, es, false, false) && LeftAlone(w, es, x)
    requires Stands(w.queue, x, when, maxtime, restart) && 0 < k && (restart < 0 || k <= Max(restart, 1))
    requires Ticks(es) >= Costs(es) + Enough(w.queue, when, maxtime, k)
    ensures Firings(Run(w, es).notes.log, x) >= Firings(w.notes.log, x) + k
    decreases |es|
  {
    hide Step, Stands, Firings, Lasting, Delays, Insert, TakeOut, Update, NoDup;
    NotBeforeFirst(w.queue, x, when, maxtime, restart);
    HasFirst(w.queue, x, when, maxtime, restart);
    if es != [] {
      var e, v := es[0], Step(w, es[0]);
      assert Steady([e]) && Steady(es[1..]);
      StepFine(w, e);
      StepLasting(w, e);
      var c := StepFate(w, e, x, when, maxtime, restart);
      if c >= k {
        RunFirings(v, es[1..], x);
      } else {
        var left := if restart < 0 then restart else restart - c;
        if c > 0 {
          EnoughLeft(w.queue, v.queue, when, maxtime, k, c);
          FiresInTheEnd(v, es[1..], x, Max(maxtime, 0), maxtime, left, k - c);
        } else {
          var d := if e.Pass? then Nearer(w.queue, e.tdiff) else 0;
          FiresInTheEnd(v, es[1..], x, when - d, maxtime, left, k);
        }
      }
    }
  }

  lemma HasFirst<T>(q: seq<Armed<T>>, x: T, when: int, maxtime: int, restart: int)
    requires Stands(q, x, when, maxtime, restart)
    ensures q != []
  {
  }

  /** A timer that is armed and then left alone: with a restart count it fires exactly as often as that says (once if
      it is 0), in the end, and is in no queue then; with a negative one it fires any number of times, and is in the
      queue. */
  lemma {:induction false} FiresAsOftenAsItSays<T(!new)>(w: World<T>, x: T, sleeptime: int, restart: int,
                                                         es: seq<Event<T>>, k: nat)
    requires Fine(w.queue) && Lasting(w.queue) && x !in Timers(w.queue)
    requires (restart >= 0 || sleeptime > 0) && Steady(es) && 0 < k && (restart >= 0 ==> k == Max(restart, 1))
    requires var v := Step(w, Arm(x, sleeptime, restart)); LegalRun(v, es, false, false) && LeftAlone(v, es, x)
    requires Ticks(es) >= Costs([Arm(x, sleeptime, restart)] + es) + k * Max(sleeptime, 0) + Delays(w.queue)
    ensures var v := Run(Step(w, Arm(x, sleeptime, restart)), es);
      if restart >= 0 then Firings(v.notes.log, x) == Firings(w.notes.log, x) + k && x !in Timers(v.queue)
      else Firings(v.notes.log, x) >= Firings(w.notes.log, x) + k && x in Timers(v.queue)
  {
    hide Run, Insert, Lasting, Delays, Stands, LeftAlone, LegalRun, Firings, NoDup;
    var e, a := Arm(x, sleeptime, restart), Armed(x, Max(sleeptime, 0), sleeptime, restart);
    var v := Step(w, e);
    assert [e][0] == e && Steady([e]);
    StepFine(w, e);
    StepLasting(w, e);
    assert ([e] + es)[1..] == es;
    Inserted(w.queue, a);
    FiresInTheEnd(v, es, x, a.delta, sleeptime, restart, k);
    var c, when := CountedDown(v, es, x, a.delta, sleeptime, restart);
    if restart < 0 {
      StandsIn(Run(v, es).queue, x, when, sleeptime, restart);
    } else if c < k {
      assert false;
    }
  }

  /** Without a period: a timer that arms itself again at once stays in front, and no other one gets any nearer, however
      the clock ticks. */
  lemma NothingElseFires<T>(z: T, maxtime: int, restart: int, q: seq<Armed<T>>, tdiff: nat)
    requires maxtime <= 0 && restart < 0 && Waiting(q)
    ensures var all := [Armed(z, 0, maxtime, restart)] + q; Update(all, tdiff) == Outcome(all, [z])
  {
    var a := Armed(z, 0, maxtime, restart);
    var all, e := [a] + q, [Less(a, tdiff)] + q;
    assert Elapse(all, tdiff) == e && e[1..] == q && Again(e[0]) == a && [] + q == q;
    if q == [] {
      assert Insert([], a) == [a];
    } else {
      assert Less(q[0], 0) == q[0];
      assert Insert(q, a) == [a, q[0]] + q[1..] == [a] + q;
      assert ([a] + q)[..1] == [a] && ([a] + q)[1..] == q;
      assert Sweep([a], q) == Outcome([a] + q, []);
    }
  }

  /** So however often the clock ticks, the others never fire. */
  lemma {:induction false} NothingElseEverFires<T(!new)>(w: World<T>, es: seq<Event<T>>, z: T, maxtime: int,
                                                         restart: int, q: seq<Armed<T>>, x: T)
    requires maxtime <= 0 && restart < 0 && Waiting(q) && w.queue == [Armed(z, 0, maxtime, restart)] + q && x != z
    requires LegalRun(w, es, false, false) && forall i :: 0 <= i < |es| ==> es[i].Pass?
    ensures Run(w, es).queue == w.queue && Firings(Run(w, es).notes.log, x) == Firings(w.notes.log, x)
    decreases |es|
  {
    hide Update, Noted, Firings;
    if es != [] {
      var tdiff := es[0].tdiff;
      NothingElseFires(z, maxtime, restart, q, tdiff);
      NotedFirings([z], w.notes, w.queue, w.now + tdiff, x);
      assert Times([z], x) == 0;
      NothingElseEverFires(Step(w, es[0]), es[1..], z, maxtime, restart, q, x);
    }
  }
}
