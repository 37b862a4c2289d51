/** The pool of helpers of src/helper.c: a queue from which the next helper is taken and put back at the end. */
module Helper {
  import opened Common
  import opened List
  import Queue

  const SECS_IN_DAY := 24 * 60 * 60

  class User {
    const name: string
    var helpingHand: bool  // the flag USR_HELPING_HAND
    var totalTime: nat
    var questionAsked: Option<string>

    constructor (name: string)
      ensures this.name == name && !helpingHand && totalTime == 0 && questionAsked == None
    {
      this.name, helpingHand, totalTime, questionAsked := name, false, 0, None;
    }
  }

  // ---------------------------------------------------------------- what a request does

  /** A user who may be chosen, out of those who are willing */
  ghost predicate Fit(u: User, willing: set<User>) {
    u in willing && u.name != ""
  }

  /** The users of q that may be chosen, in their order */
  ghost function Keep(q: seq<User>, willing: set<User>): (r: seq<User>)
    ensures |r| <= |q|
  {
    if q == [] then []
    else if Fit(q[0], willing) then [q[0]] + Keep(q[1..], willing)
    else Keep(q[1..], willing)
  }

  lemma {:induction false} KeepExactly(q: seq<User>, willing: set<User>, u: User)
    ensures u in Keep(q, willing) <==> u in q && Fit(u, willing)
  {
    if q != [] {
      KeepExactly(q[1..], willing, u);
      assert q == [q[0]] + q[1..];
    }
  }

  /** The place of the first one who may be chosen and does not have this name */
  ghost function Chosen(q: seq<User>, willing: set<User>, name: string): (k: nat)
    ensures k <= |q| && forall i :: 0 <= i < k ==> !Fit(q[i], willing) || q[i].name == name
    ensures k < |q| ==> Fit(q[k], willing) && q[k].name != name
  {
    if q == [] || (Fit(q[0], willing) && q[0].name != name) then 0 else 1 + Chosen(q[1..], willing, name)
  }

  /** The helper that is chosen, what becomes of the queue, and who loses the flag */
  datatype Outcome = Outcome(helper: User?, queue: seq<User>, ousted: set<User>)

  /** A request of a user with this name who has asked nobody before */
  ghost function Fresh(q: seq<User>, willing: set<User>, name: string): Outcome {
    var k := Chosen(q, willing, name);
    var ousted := set u | u in q[..k] && !Fit(u, willing);
    if k < |q| then Outcome(q[k], q[k + 1..] + Keep(q[..k], willing) + [q[k]], ousted)
    else Outcome(null, Keep(q, willing), ousted)
  }

  /** Only the user himself could be chosen, and he stands in the queue more than once. */
  ghost predicate Stuck(q: seq<User>, willing: set<User>, name: string) {
    Chosen(q, willing, name) == |q| && |Keep(q, willing)| > 1
  }

  /** The place of the helper who was asked before, if it is not the user himself */
  ghost function Asked(q: seq<User>, name: string, asked: string): (k: nat)
    ensures k <= |q| && (k < |q| ==> q[k].name == asked != name)
      && forall i :: 0 <= i < k ==> q[i].name == name || q[i].name != asked
  {
    if q == [] || (q[0].name != name && q[0].name == asked) then 0 else 1 + Asked(q[1..], name, asked)
  }

  ghost function WithoutPlace<T>(q: seq<T>, k: nat): seq<T> {
    if k < |q| then q[..k] + q[k + 1..] else q
  }

  /** The helper who was asked before is still there to help. */
  ghost predicate Again(q: seq<User>, willing: set<User>, name: string, asked: Option<string>) {
    asked.Some? && var k := Asked(q, name, asked.value); k < |q| && q[k] in willing
  }

  ghost function Request(q: seq<User>, willing: set<User>, name: string, asked: Option<string>): Outcome {
    if asked.None? then Fresh(q, willing, name)
    else
      var k := Asked(q, name, asked.value);
      if k < |q| && q[k] in willing then Outcome(q[k], WithoutPlace(q, k) + [q[k]], {})
      else
        var r := Fresh(WithoutPlace(q, k), willing, name);
        r.(ousted := r.ousted + if k < |q| then {q[k]} else {})
  }

  // ---------------------------------------------------------------- one turn of the loop

  lemma TurnedDown(q: seq<User>, willing: set<User>, name: string)
    requires q != [] && !Fit(q[0], willing)
    ensures var r, r' := Fresh(q, willing, name), Fresh(q[1..], willing, name);
      r == r'.(ousted := r'.ousted + {q[0]})
    ensures Stuck(q[1..], willing, name) <==> Stuck(q, willing, name)
  {
    var k := Chosen(q, willing, name);
    assert q[..k] == [q[0]] + q[1..][..k - 1];
    assert q[..k][1..] == q[1..][..k - 1];
  }

  lemma {:induction false} KeepConcat(a: seq<User>, b: seq<User>, willing: set<User>)
    ensures Keep(a + b, willing) == Keep(a, willing) + Keep(b, willing)
    decreases |a|
  {
    hide Fit;
    if a == [] {
      assert a + b == b;
    } else {
      KeepConcat(a[1..], b, willing);
      assert (a + b)[0] == a[0] && (a + b)[1..] == a[1..] + b;
      assert ([a[0]] + Keep(a[1..], willing)) + Keep(b, willing) == [a[0]] + (Keep(a[1..], willing) + Keep(b, willing));
    }
  }

  lemma {:induction false} ChosenConcat(a: seq<User>, b: seq<User>, willing: set<User>, name: string)
    ensures var k := Chosen(a, willing, name);
      Chosen(a + b, willing, name) == if k < |a| then k else |a| + Chosen(b, willing, name)
    decreases |a|
  {
    if a == [] {
      assert a + b == b;
    } else {
      ChosenConcat(a[1..], b, willing, name);
      assert (a + b)[1..] == a[1..] + b;
    }
  }

  /** The user himself goes to the end of the queue. */
  lemma Passed(q: seq<User>, willing: set<User>, name: string)
    requires q != [] && Fit(q[0], willing) && q[0].name == name && !Stuck(q, willing, name)
    ensures Fresh(q[1..] + [q[0]], willing, name) == Fresh(q, willing, name)
  {
    var k, t := Chosen(q, willing, name), q[1..] + [q[0]];
    ChosenConcat(q[1..], [q[0]], willing, name);
    if k < |q| {
      SomeoneLeft(q, k, willing);
    } else {
      OnlyHimself(q, willing);
    }
  }

  lemma {:induction false} SomeoneLeft(q: seq<User>, k: nat, willing: set<User>)
    requires 0 < k < |q| && Fit(q[0], willing)
    ensures var t := q[1..] + [q[0]];
      && t[k - 1] == q[k] && t[k..] + Keep(t[..k - 1], willing) == q[k + 1..] + Keep(q[..k], willing)
      && (set u | u in t[..k - 1] && !Fit(u, willing)) == (set u | u in q[..k] && !Fit(u, willing))
  {
    var t, rest := q[1..] + [q[0]], q[1..k];
    assert t[..k - 1] == rest && q[..k] == [q[0]] + rest && q[..k][1..] == rest;
    assert t[k..] == q[k + 1..] + [q[0]];
  }

  lemma {:induction false} OnlyHimself(q: seq<User>, willing: set<User>)
    requires q != [] && Fit(q[0], willing) && |Keep(q, willing)| <= 1
    ensures var t := q[1..] + [q[0]];
      && Keep(t, willing) == Keep(q, willing)
      && (set u | u in t[..|t|] && !Fit(u, willing)) == (set u | u in q[..|q|] && !Fit(u, willing))
  {
    var t := q[1..] + [q[0]];
    KeepConcat(q[1..], [q[0]], willing);
    assert Keep([q[0]], willing) == [q[0]];
    assert t[..|t|] == t && q[..|q|] == q && q == [q[0]] + q[1..];
  }

  /** The number of entries at the front that are put back at the end: it drops with every turn. */
  lemma {:induction false} CloserToChosen(q: seq<User>, willing: set<User>, name: string)
    requires |q| > 1 && Fit(q[0], willing) && q[0].name == name && !Stuck(q, willing, name)
    ensures var t := q[1..] + [q[0]];
      !Stuck(t, willing, name) && Himself(t, willing, name) < Himself(q, willing, name)
  {
    var t := q[1..] + [q[0]];
    Passed(q, willing, name);
    KeepConcat(q[1..], [q[0]], willing);
    KeepConcat([q[0]], q[1..], willing);
    assert q == [q[0]] + q[1..];
    ChosenConcat(q[1..], [q[0]], willing, name);
    if Himself(q[1..], willing, name) == |q| - 1 {
      AllHimself(q, willing, name);
    } else {
      HimselfConcat(q[1..], [q[0]], willing, name);
    }
  }

  /** How many entries at the front are the user himself */
  ghost function Himself(q: seq<User>, willing: set<User>, name: string): (n: nat)
    ensures n <= |q|
  {
    if q != [] && Fit(q[0], willing) && q[0].name == name then 1 + Himself(q[1..], willing, name) else 0
  }

  lemma {:induction false} AllHimself(q: seq<User>, willing: set<User>, name: string)
    requires Himself(q, willing, name) == |q|
    ensures Keep(q, willing) == q && Chosen(q, willing, name) == |q|
  {
    if q != [] {
      AllHimself(q[1..], willing, name);
    }
  }

  lemma {:induction false} HimselfConcat(a: seq<User>, b: seq<User>, willing: set<User>, name: string)
    requires Himself(a, willing, name) < |a|
    ensures Himself(a + b, willing, name) == Himself(a, willing, name)
    decreases |a|
  {
    if Himself(a, willing, name) > 0 {
      HimselfConcat(a[1..], b, willing, name);
      assert (a + b)[1..] == a[1..] + b;
    }
  }

  /** The queue after one turn of the loop that goes on: the first one is dropped, or put back if it is the user. */
  ghost function Turn(q: seq<User>, willing: set<User>): seq<User>
    requires q != []
  {
    if Fit(q[0], willing) then q[1..] + [q[0]] else q[1..]
  }

  /** A queue in which the loop is stuck leads to another one: the loop never ends. */
  lemma StuckForEver(q: seq<User>, willing: set<User>, name: string)
    requires Stuck(q, willing, name)
    ensures |q| > 1 && (Fit(q[0], willing) ==> q[0].name == name) && Stuck(Turn(q, willing), willing, name)
  {
    if Fit(q[0], willing) {
      KeepConcat(q[1..], [q[0]], willing);
      KeepConcat([q[0]], q[1..], willing);
      assert q == [q[0]] + q[1..];
      ChosenConcat(q[1..], [q[0]], willing, name);
    } else {
      TurnedDown(q, willing, name);
    }
  }

  /** A user who can help and is added twice: from then on his own request does not end exactly if nobody else could be
      chosen. */
  lemma {:induction false} AddedTwiceStuckIff(q: seq<User>, willing: set<User>, u: User)
    requires Fit(u, willing)
    ensures Stuck(q + [u, u], willing, u.name) <==> Chosen(q, willing, u.name) == |q|
  {
    KeepConcat(q, [u, u], willing);
    ChosenConcat(q, [u, u], willing, u.name);
    assert [u, u][1..] == [u] && [u][1..] == [];
    assert Keep([u], willing) == [u] && Keep([u, u], willing) == [u, u];
    assert Chosen([u], willing, u.name) == 1 && Chosen([u, u], willing, u.name) == 2;
  }

  /** The loop has come to the queue q; those in gone were dropped. */
  ghost predicate Halfway(all: seq<User>, willing: set<User>, gone: set<User>, q: seq<User>, name: string) {
    && !Stuck(q, willing, name) && (forall v :: v in gone ==> !Fit(v, willing))
       && (forall i :: 0 <= i < |q| ==> q[i] in all)
    && var r := Fresh(q, willing, name); Fresh(all, willing, name) == r.(ousted := r.ousted + gone)
  }

  lemma NotYet(q: seq<User>, willing: set<User>, name: string)
    requires !Stuck(q, willing, name)
    ensures Halfway(q, willing, {}, q, name)
  {
    var r := Fresh(q, willing, name);
    assert r.ousted + {} == r.ousted;
  }

  lemma GoneUnfit(all: seq<User>, willing: set<User>, gone: set<User>, q: seq<User>, name: string)
    requires Halfway(all, willing, gone, q, name)
    ensures (forall v :: v in gone ==> !Fit(v, willing)) && (q != [] ==> q[0] in all)
  {
  }

  lemma OneDropped(all: seq<User>, willing: set<User>, gone: set<User>, q: seq<User>, name: string)
    requires Halfway(all, willing, gone, q, name) && q != [] && !Fit(q[0], willing)
    ensures Halfway(all, willing, gone + {q[0]}, q[1..], name)
  {
    TurnedDown(q, willing, name);
    var r, t := Fresh(q, willing, name), Fresh(q[1..], willing, name);
    assert t.ousted + (gone + {q[0]}) == r.ousted + gone;
  }

  lemma {:induction false} OnePassed(all: seq<User>, willing: set<User>, gone: set<User>, q: seq<User>, name: string)
    requires Halfway(all, willing, gone, q, name) && |q| > 1 && Fit(q[0], willing) && q[0].name == name
    ensures Halfway(all, willing, gone, q[1..] + [q[0]], name)
    ensures Himself(q[1..] + [q[0]], willing, name) < Himself(q, willing, name)
  {
    Passed(q, willing, name);
    CloserToChosen(q, willing, name);
  }

  /** The loop is done when the first one is chosen, or the user is the only one. */
  lemma Decided(all: seq<User>, willing: set<User>, gone: set<User>, q: seq<User>, name: string)
    requires Halfway(all, willing, gone, q, name)
      && (q != [] ==> Fit(q[0], willing) && (q[0].name == name ==> |q| == 1))
    ensures var r := Fresh(all, willing, name);
      && r.helper == (if q == [] || q[0].name == name then null else q[0])
      && r.queue == (if q == [] then [] else q[1..] + [q[0]]) && r.ousted == gone
  {
  }

  /** It makes no difference to the loop if someone who is not willing is missing. */
  lemma StuckWithout(q: seq<User>, k: nat, willing: set<User>, name: string)
    requires k < |q| && q[k] !in willing
    ensures Stuck(WithoutPlace(q, k), willing, name) <==> Stuck(q, willing, name)
  {
    var a, b := q[..k], q[k + 1..];
    assert q == a + ([q[k]] + b);
    KeepConcat(a, b, willing);
    KeepConcat(a, [q[k]] + b, willing);
    ChosenConcat(a, b, willing, name);
    ChosenConcat(a, [q[k]] + b, willing, name);
  }

  lemma {:induction false} KeepSame(q: seq<User>, willing: set<User>, now: set<User>)
    requires forall i :: 0 <= i < |q| ==> (Fit(q[i], now) <==> Fit(q[i], willing))
    ensures Keep(q, now) == Keep(q, willing)
  {
    if q != [] {
      KeepSame(q[1..], willing, now);
    }
  }

  /** Who has been in the queue before */
  ghost predicate AllFrom(r: seq<User>, q: seq<User>) {
    forall i {:trigger r[i]} :: 0 <= i < |r| ==> r[i] in q
  }

  lemma FreshWithin(q: seq<User>, willing: set<User>, name: string)
    ensures AllFrom(Fresh(q, willing, name).queue, q)
  {
    var k, r := Chosen(q, willing, name), Fresh(q, willing, name).queue;
    forall i | 0 <= i < |r|
      ensures r[i] in q
    {
      KeepExactly(q[..k], willing, r[i]);
      KeepExactly(q, willing, r[i]);
    }
  }

  lemma FreshOusts(q: seq<User>, willing: set<User>, name: string)
    ensures forall v :: v in Fresh(q, willing, name).ousted ==> !Fit(v, willing)
  {
  }

  /** Somebody else can help, so the loop ends. */
  lemma {:induction false} NotStuck(q: seq<User>, willing: set<User>, name: string)
    requires Keep(q, willing) != [] && forall u :: u in Keep(q, willing) ==> u.name != name
    ensures !Stuck(q, willing, name)
  {
    FirstKept(q, willing, name);
  }

  /** The first one in the queue who has the name of the helper asked before stands at place k and is willing; he is not
      the user himself. */
  ghost predicate StillThere(q: seq<User>, willing: set<User>, name: string, asked: Option<string>, k: nat) {
    && asked.Some? && asked.value != name && k < |q| && q[k].name == asked.value && q[k] in willing
    && forall i :: 0 <= i < k ==> q[i].name != asked.value
  }

  lemma AgainIff(q: seq<User>, willing: set<User>, name: string, asked: Option<string>)
    ensures Again(q, willing, name, asked) <==> exists k: nat :: StillThere(q, willing, name, asked, k)
  {
    if asked.Some? && Again(q, willing, name, asked) {
      assert StillThere(q, willing, name, asked, Asked(q, name, asked.value));
    }
  }

  /** The first of those who can help that is not the user himself stands at place m. */
  ghost predicate FirstOther(keep: seq<User>, name: string, m: nat) {
    m < |keep| && keep[m].name != name && forall i :: 0 <= i < m ==> keep[i].name == name
  }

  /** Those who are passed over are the user himself. */
  lemma {:induction false} KeptUpToChosen(q: seq<User>, willing: set<User>, name: string)
    ensures var k := Chosen(q, willing, name); var first := Keep(q[..k], willing);
      && (forall v :: v in first ==> v.name == name)
      && Keep(q, willing) == first + if k < |q| then [q[k]] + Keep(q[k + 1..], willing) else []
  {
    hide Keep, Chosen;
    var k := Chosen(q, willing, name);
    forall v | v in Keep(q[..k], willing)
      ensures v.name == name
    {
      KeepExactly(q[..k], willing, v);
    }
    if k < |q| {
      var rest := [q[k]] + q[k + 1..];
      assert q == q[..k] + rest;
      KeepConcat(q[..k], rest, willing);
      KeepOne(rest, willing);
      assert rest[1..] == q[k + 1..];
    } else {
      assert q[..k] == q && Keep(q, willing) + [] == Keep(q, willing);
    }
  }

  lemma {:induction false} KeepOne(q: seq<User>, willing: set<User>)
    requires q != [] && Fit(q[0], willing)
    ensures Keep(q, willing) == [q[0]] + Keep(q[1..], willing)
  {
  }

  lemma {:induction false} KeepTwice(q: seq<User>, willing: set<User>)
    ensures Keep(Keep(q, willing), willing) == Keep(q, willing)
  {
    if q != [] {
      KeepTwice(q[1..], willing);
      var r := Keep(q[1..], willing);
      assert ([q[0]] + r)[1..] == r;
    }
  }

  /** If the loop ends, then the first other one is chosen. */
  lemma {:induction false} FreshServes(q: seq<User>, willing: set<User>, name: string)
    ensures var r, keep := Fresh(q, willing, name), Keep(q, willing);
      && (forall m: nat :: FirstOther(keep, name, m) ==>
           r.helper == keep[m] && Keep(r.queue, willing) == keep[m + 1..] + keep[..m] + [keep[m]])
      && ((forall v :: v in keep ==> v.name == name) ==> r.helper == null && Keep(r.queue, willing) == keep)
  {
    hide Keep, Chosen, Fit;
    var k, keep := Chosen(q, willing, name), Keep(q, willing);
    var first := Keep(q[..k], willing);
    KeptUpToChosen(q, willing, name);
    if k < |q| {
      assert keep[|first|] == q[k] && keep[..|first|] == first && keep[|first| + 1..] == Keep(q[k + 1..], willing);
      assert q[k] in keep;
      ServedQueue(q, willing, k);
      assert forall i :: 0 <= i < |first| ==> keep[i] == first[i] && first[i].name == name;
      assert forall m: nat :: FirstOther(keep, name, m) ==> m == |first|;
    } else {
      KeepTwice(q, willing);
      assert first + [] == first;
    }
  }

  lemma {:induction false} ServedQueue(q: seq<User>, willing: set<User>, k: nat)
    requires k < |q| && Fit(q[k], willing)
    ensures Keep(q[k + 1..] + Keep(q[..k], willing) + [q[k]], willing)
         == Keep(q[k + 1..], willing) + Keep(q[..k], willing) + [q[k]]
  {
    hide Keep, Fit;
    var first := Keep(q[..k], willing);
    KeepConcat(q[k + 1..] + first, [q[k]], willing);
    KeepConcat(q[k + 1..], first, willing);
    KeepTwice(q[..k], willing);
    KeepOne([q[k]], willing);
    KeepNone(willing);
    assert [q[k]][1..] == [];
  }

  lemma {:induction false} KeepNone(willing: set<User>)
    ensures Keep([], willing) == []
  {
  }

  lemma StuckIff(q: seq<User>, willing: set<User>, name: string)
    ensures var keep := Keep(q, willing);
      !Stuck(q, willing, name) <==> |keep| <= 1 || exists v :: v in keep && v.name != name
  {
    hide Keep, Chosen;
    var k := Chosen(q, willing, name);
    KeptUpToChosen(q, willing, name);
    if k < |q| {
      assert q[k] in Keep(q, willing);
    } else {
      assert q[..k] == q;
    }
  }

  /** One who cannot help anyway may be missing. */
  lemma {:induction false} KeepWithout(q: seq<User>, k: nat, willing: set<User>)
    requires k < |q| && q[k] !in willing
    ensures Keep(WithoutPlace(q, k), willing) == Keep(q, willing)
  {
    var a, b := q[..k], q[k + 1..];
    assert q == a + ([q[k]] + b);
    KeepConcat(a, b, willing);
    KeepConcat(a, [q[k]] + b, willing);
  }

  /** What a request comes to, whoever was asked before */
  lemma {:induction false} RequestServes(q: seq<User>, willing: set<User>, name: string, asked: Option<string>)
    ensures var r, keep := Request(q, willing, name, asked), Keep(q, willing);
      && AllFrom(r.queue, q) && (forall v :: v in r.ousted ==> !Fit(v, willing))
      && (forall k: nat :: StillThere(q, willing, name, asked, k) ==>
           r.helper == q[k] && r.queue == Others(q, k) + [q[k]])
      && (!(exists k: nat :: StillThere(q, willing, name, asked, k)) ==>
           && (forall m: nat :: FirstOther(keep, name, m) ==>
                r.helper == keep[m] && Keep(r.queue, willing) == keep[m + 1..] + keep[..m] + [keep[m]])
           && ((forall v :: v in keep ==> v.name == name) ==> r.helper == null && Keep(r.queue, willing) == keep))
  {
    hide Keep, Fresh, FirstOther;
    if asked.None? {
      FreshServes(q, willing, name);
      FreshWithin(q, willing, name);
      FreshOusts(q, willing, name);
    } else {
      var k := Asked(q, name, asked.value);
      AgainIff(q, willing, name, asked);
      var p := WithoutPlace(q, k);
      FreshServes(p, willing, name);
      FreshWithin(p, willing, name);
      FreshOusts(p, willing, name);
      if k < |q| && q[k] !in willing {
        KeepWithout(q, k, willing);
      }
    }
  }

  // ---------------------------------------------------------------- the pool

  ghost function Data(nodes: seq<Node<User>>): (r: seq<User>)
    ensures |r| == |nodes|
  {
    seq(|nodes|, i requires 0 <= i < |nodes| => nodes[i].data)
  }

  /** Who has the flag: those in had, but for those in gone */
  ghost predicate Flags(q: seq<User>, had: set<User>, gone: set<User>)
    reads q`helpingHand
  {
    forall i :: 0 <= i < |q| ==> (q[i].helpingHand <==> q[i] in had && q[i] !in gone)
  }

  ghost function Flagged(q: seq<User>): (had: set<User>)
    reads q`helpingHand
    ensures Flags(q, had, {})
  {
    set i | 0 <= i < |q| && q[i].helpingHand :: q[i]
  }

  /** The first place where u stands in q, or |q| */
  ghost function Entry(q: seq<User>, u: User): (k: nat)
    ensures k <= |q| && (k < |q| ==> q[k] == u) && forall i :: 0 <= i < k ==> q[i] != u
  {
    if q == [] || q[0] == u then 0 else 1 + Entry(q[1..], u)
  }

  class Pool {
    const helpers: Queue.Queue<User>
    var haveQuestions: bool  // PARAM_HAVE_QUESTIONS
    var helperAge: int  // PARAM_HELPER_AGE
    ghost var users: seq<User>

    ghost predicate Valid()
      reads this, helpers, helpers.nodes
    {
      helpers.Valid() && users == Data(helpers.nodes)
    }

    predicate OldEnough(u: User)
      reads `helperAge, u`totalTime
    {
      u.totalTime / SECS_IN_DAY >= helperAge
    }

    /** The age is in whole days. */
    lemma OldEnoughIff(u: User)
      ensures OldEnough(u) <==> u.totalTime >= helperAge * 86400
    {
    }

    /** Those who offer help and have been around for long enough */
    ghost function Willing(q: seq<User>): set<User>
      reads `helperAge, q`helpingHand, q`totalTime
    {
      set i | 0 <= i < |q| && q[i].helpingHand && OldEnough(q[i]) :: q[i]
    }

    /** init_helper */
    constructor (haveQuestions: bool, helperAge: int)
      ensures Valid() && users == [] && this.haveQuestions == haveQuestions && this.helperAge == helperAge
        && fresh(helpers)
    {
      helpers := new Queue.Queue<User>();
      this.haveQuestions, this.helperAge, users := haveQuestions, helperAge, [];
    }

    /** add_helper */
    method Add(usr: User)
      requires Valid()
      modifies `users, helpers, helpers.nodes, usr`helpingHand
      ensures Valid() && forall i :: 0 <= i < |helpers.nodes| ==>
        helpers.nodes[i] in old(helpers.nodes) || fresh(helpers.nodes[i])
      ensures users == old(users) + if haveQuestions && old(usr.helpingHand) && OldEnough(usr) then [usr] else []
      ensures usr.helpingHand == (old(usr.helpingHand) && (haveQuestions ==> OldEnough(usr)))
    {
      assert users + [] == users;
      if !usr.helpingHand || !haveQuestions {
        return;
      }
      if usr.totalTime / SECS_IN_DAY < helperAge {
        usr.helpingHand := false;
        return;
      }
      var pl := new Node(usr);
      PutBack(pl);
    }

    /** A node goes to the end of the queue. */
    method PutBack(pl: Node<User>)
      requires Valid() && pl !in helpers.nodes
      modifies `users, helpers, helpers.nodes, pl
      ensures Valid() && helpers.nodes == old(helpers.nodes) + [pl] && users == old(users) + [pl.data]
    {
      helpers.Add(pl);
      users := users + [pl.data];
    }

    method PopFirst() returns (pl: Node<User>)
      requires Valid() && users != []
      modifies `users, helpers, helpers.nodes
      ensures Valid() && helpers.nodes == old(helpers.nodes)[1..] && users == old(users)[1..]
      ensures pl == old(helpers.nodes)[0] && pl.data == old(users)[0] && pl !in helpers.nodes
    {
      pl := helpers.Pop();
      users := users[1..];
    }

    method TakeOut(pl: Node<User>, ghost k: nat)
      requires Valid() && k < |users| && helpers.nodes[k] == pl
      modifies `users, helpers, helpers.nodes
      ensures Valid() && helpers.nodes == WithoutPlace(old(helpers.nodes), k) && users == WithoutPlace(old(users), k)
        && pl !in helpers.nodes
    {
      helpers.Remove(pl, k);
      users := WithoutPlace(users, k);
    }

    /** remove_helper: takes out the first entry of this user. */
    method Remove(usr: User)
      requires Valid()
      modifies `users, helpers, helpers.nodes
      ensures Valid() && users == WithoutPlace(old(users), Entry(old(users), usr))
      ensures forall i :: 0 <= i < |helpers.nodes| ==> helpers.nodes[i] in old(helpers.nodes)
    {
      hide NoDup, Backward;
      var p := helpers.tail;
      ghost var k := 0;
      while p != null && p.data != usr
        invariant k <= Entry(users, usr) <= |users|
        invariant p == if k < |users| then helpers.nodes[k] else null
        decreases |users| - k
      {
        assert users[k] != usr;
        assert helpers.nodes[k].next == if k + 1 < |users| then helpers.nodes[k + 1] else null;
        p := p.next;
        k := k + 1;
      }
      if p != null {
        assert users[k] == p.data;
        TakeOut(p, k);
      }
    }

    predicate Ready(u: User)
      reads `helperAge, u`helpingHand, u`totalTime
    {
      u.name != "" && u.helpingHand && OldEnough(u)
    }

    method ClearFlag(v: User, ghost all: seq<User>, ghost had: set<User>, ghost gone: set<User>)
      requires Flags(all, had, gone)
      modifies v`helpingHand
      ensures Flags(all, had, gone + {v})
    {
      v.helpingHand := false;
    }

    /** Those of all who had the flag are willing if they are old enough. */
    ghost predicate Suited(all: seq<User>, had: set<User>, willing: set<User>)
      reads `helperAge, all`totalTime
    {
      forall i :: 0 <= i < |all| ==> (all[i] in willing <==> all[i] in had && OldEnough(all[i]))
    }

    lemma ReadyIfFit(u: User, all: seq<User>, had: set<User>, willing: set<User>, gone: set<User>)
      requires Flags(all, had, gone) && Suited(all, had, willing) && u in all
        && forall v :: v in gone ==> !Fit(v, willing)
      ensures Ready(u) <==> Fit(u, willing)
    {
    }

    lemma AllSuited(all: seq<User>)
      ensures Suited(all, Flagged(all), Willing(all)) && Flags(all, Flagged(all), {})
    {
    }

    /** One turn of the loop of get_helper; more says if it goes on. */
    method Turn(usr: User, ghost first: User, ghost all: seq<User>, ghost had: set<User>, ghost willing: set<User>,
                ghost gone: set<User>)
      returns (u: User?, more: bool)
      requires Valid() && users != [] && first == users[0] && first in all && Flags(all, had, gone)
        && Suited(all, had, willing)
      modifies `users, helpers, helpers.nodes, first`helpingHand, usr`questionAsked
      ensures Valid() && forall i :: 0 <= i < |helpers.nodes| ==> helpers.nodes[i] in old(helpers.nodes)
      ensures var ready := old(Ready(first));
        && users == (if ready then old(users)[1..] + [first] else old(users)[1..])
        && Flags(all, had, if ready then gone else gone + {first}) && Suited(all, had, willing)
        && more == (!ready || (first.name == usr.name && |old(users)| > 1))
        && (more ==> u == null) && (!more ==> u == if first.name == usr.name then null else first)
      ensures usr.questionAsked == if u == null then old(usr.questionAsked) else Some(u.name)
    {
      hide Flags, NoDup, Forward, Backward, Linked;
      var pl := PopFirst();
      var v := pl.data;
      u := null;
      if v.name == "" || !v.helpingHand || v.totalTime / SECS_IN_DAY < helperAge {
        ClearFlag(v, all, had, gone);
        return u, true;
      }
      PutBack(pl);
      if v.name == usr.name {
        return u, helpers.count > 1;
      }
      usr.questionAsked := Some(v.name);
      return v, false;
    }

    /** The loop of get_helper that looks for the next helper; it drops those who cannot help. Those in lost have
        lost the flag already. */
    method NextHelper(usr: User, ghost all: seq<User>, ghost had: set<User>, ghost willing: set<User>,
                      ghost lost: set<User>)
      returns (u: User?)
      requires Valid() && !Stuck(users, willing, usr.name) && Flags(all, had, lost) && Suited(all, had, willing)
      requires (forall v :: v in lost ==> !Fit(v, willing)) && forall i :: 0 <= i < |users| ==> users[i] in all
      modifies `users, helpers, helpers.nodes, users`helpingHand, usr`questionAsked
      ensures var r := Fresh(old(users), willing, usr.name);
        Valid() && u == r.helper && users == r.queue && Flags(all, had, lost + r.ousted)
      ensures usr.questionAsked == if u == null then old(usr.questionAsked) else Some(u.name)
      ensures forall i :: 0 <= i < |helpers.nodes| ==> helpers.nodes[i] in old(helpers.nodes)
    {
      hide Fresh, Stuck, Flags, Suited, Halfway, Himself, Fit, NoDup, Forward, Backward, Linked, Keep, Chosen, Asked,
        Data, Willing;
      ghost var start, name := users, usr.name;
      ghost var gone: set<User> := {};
      NotYet(users, willing, name);
      assert lost + gone == lost;
      while helpers.count > 0
        invariant Valid() && Flags(all, had, lost + gone) && Suited(all, had, willing)
          && Halfway(start, willing, gone, users, name)
        invariant forall i :: 0 <= i < |helpers.nodes| ==> helpers.nodes[i] in old(helpers.nodes)
        invariant usr.questionAsked == old(usr.questionAsked)
        decreases |users|, Himself(users, willing, name)
      {
        ghost var q, first := users, users[0];
        GoneUnfit(start, willing, gone, q, name);
        ReadyIfFit(first, all, had, willing, lost + gone);
        assert (lost + gone) + {first} == lost + (gone + {first});
        var more;
        u, more := Turn(usr, first, all, had, willing, lost + gone);
        if !more {
          Decided(start, willing, gone, q, name);
          return;
        }
        if Fit(first, willing) {
          OnePassed(start, willing, gone, q, name);
        } else {
          OneDropped(start, willing, gone, q, name);
          gone := gone + {first};
        }
      }
      Decided(start, willing, gone, users, name);
      return null;
    }

    /** The entry of the helper who was asked before */
    method FindAsked(usr: User, asked: string) returns (pl: Node?<User>, ghost k: nat)
      requires Valid()
      ensures k == Asked(users, usr.name, asked) && pl == if k < |users| then helpers.nodes[k] else null
    {
      hide NoDup, Backward;
      pl, k := helpers.tail, 0;
      while pl != null
        invariant k <= Asked(users, usr.name, asked) <= |users|
        invariant pl == if k < |users| then helpers.nodes[k] else null
        decreases |users| - k
      {
        var u := pl.data;
        assert users[k] == u;
        if u.name != usr.name && u.name == asked {
          return;
        }
        assert helpers.nodes[k].next == if k + 1 < |users| then helpers.nodes[k + 1] else null;
        pl := pl.next;
        k := k + 1;
      }
    }

    /** The loop of get_helper that looks for the helper who was asked before; he goes to the end of the queue. */
    method SameHelper(usr: User, asked: string) returns (u: User?)
      requires Valid()
      modifies `users, helpers, helpers.nodes, users`helpingHand
      ensures Valid() && forall i :: 0 <= i < |helpers.nodes| ==> helpers.nodes[i] in old(helpers.nodes)
      ensures var all, k, had := old(users), Asked(old(users), usr.name, asked), old(Flagged(users));
        && Suited(all, had, old(Willing(users)))
        && if k < |all| && all[k] in old(Willing(users))
           then u == all[k] && users == WithoutPlace(all, k) + [u] && Flags(all, had, {})
           else u == null && users == WithoutPlace(all, k) && Flags(all, had, if k < |all| then {all[k]} else {})
    {
      hide Flags, Flagged, NoDup, Forward, Backward, Linked, Suited, Asked;
      AllSuited(users);
      ghost var all, had := users, Flagged(users);
      var pl, k := FindAsked(usr, asked);
      if pl == null {
        return null;
      }
      u := pl.data;
      TakeOut(pl, k);
      if !u.helpingHand || u.totalTime / SECS_IN_DAY < helperAge {
        ClearFlag(u, all, had, {});
        assert {} + {u} == {u};
        return null;
      }
      PutBack(pl);
    }

    /** get_helper: without the flag the first loop does not choose a helper either. */
    method GetHelper(usr: User) returns (u: User?)
      requires Valid()
      requires haveQuestions && !Again(users, Willing(users), usr.name, usr.questionAsked) ==>
        !Stuck(users, Willing(users), usr.name)
      modifies `users, helpers, helpers.nodes, users`helpingHand, usr`questionAsked
      ensures Valid() && forall i :: 0 <= i < |helpers.nodes| ==> helpers.nodes[i] in old(helpers.nodes)
      ensures !haveQuestions ==> u == null && users == old(users) && usr.questionAsked == old(usr.questionAsked)
      ensures haveQuestions ==> var r := Request(old(users), old(Willing(users)), usr.name, old(usr.questionAsked));
        && u == r.helper && users == r.queue && Flags(old(users), old(Flagged(users)), r.ousted)
        && usr.questionAsked == if u == null then None else Some(u.name)
    {
      hide Fresh, Stuck, Flags, Suited, Asked, NoDup, Forward, Backward, Linked;
      if !haveQuestions {
        return null;
      }
      ghost var all, had, willing := users, Flagged(users), Willing(users);
      ghost var lost: set<User> := {};
      AllSuited(users);
      if usr.questionAsked.Some? {
        ghost var k := Asked(all, usr.name, usr.questionAsked.value);
        u := SameHelper(usr, usr.questionAsked.value);
        if u != null {
          return;
        }
        usr.questionAsked := None;
        if k < |all| {
          lost := {all[k]};
          StuckWithout(all, k, willing, usr.name);
        }
      }
      ghost var r := Fresh(users, willing, usr.name);
      assert lost + r.ousted == r.ousted + lost && {} + r.ousted == r.ousted;
      u := NextHelper(usr, all, had, willing, lost);
    }

    lemma FlagsKept(all: seq<User>, had: set<User>, willing: set<User>, ousted: set<User>)
      requires Flags(all, had, ousted)
      ensures forall v :: v in all ==> (v.helpingHand <==> v in had && v !in ousted)
    {
    }

    /** Those who lose the flag in a request could not have been chosen, so everybody else is as willing as before. */
    lemma {:induction false} StillWilling(all: seq<User>, had: set<User>, willing: set<User>, ousted: set<User>,
                                          q: seq<User>)
      requires Flags(all, had, ousted) && Suited(all, had, willing) && AllFrom(q, all)
      requires forall v :: v in ousted ==> !Fit(v, willing)
      ensures Keep(q, Willing(q)) == Keep(q, willing)
    {
      var now := Willing(q);
      forall i | 0 <= i < |q|
        ensures Fit(q[i], now) <==> Fit(q[i], willing)
      {
        var j :| 0 <= j < |all| && all[j] == q[i];
        assert all[j].helpingHand <==> all[j] in had && all[j] !in ousted;
      }
      KeepSame(q, willing, now);
    }

    /** A request in the terms of the queue. If the helper who was asked before stands in it and is willing, then the
        question goes to him again. Otherwise it goes to the first of those who can help that is not the user himself,
        whether somebody else was asked before or not. Whoever is chosen stands last then, and nobody loses the flag who
        could have been chosen. */
    method Consult(usr: User) returns (u: User?)
      requires Valid() && haveQuestions
      requires (exists k: nat :: StillThere(users, Willing(users), usr.name, usr.questionAsked, k))
        || |Keep(users, Willing(users))| <= 1 || exists v :: v in Keep(users, Willing(users)) && v.name != usr.name
      modifies `users, helpers, helpers.nodes, users`helpingHand, usr`questionAsked
      ensures Valid() && forall i :: 0 <= i < |helpers.nodes| ==> helpers.nodes[i] in old(helpers.nodes)
      ensures AllFrom(users, old(users)) && usr.questionAsked == if u == null then None else Some(u.name)
      ensures forall v :: v in old(users) && old(v.helpingHand) != v.helpingHand ==>
        old(v.helpingHand) && !Fit(v, old(Willing(users)))
      ensures forall k: nat :: old(StillThere(users, Willing(users), usr.name, usr.questionAsked, k)) ==>
        u == old(users)[k] && users == Others(old(users), k) + [u]
      ensures !old(exists k: nat :: StillThere(users, Willing(users), usr.name, usr.questionAsked, k)) ==>
        var keep := old(Keep(users, Willing(users)));
        && (forall m: nat :: FirstOther(keep, usr.name, m) ==>
             u == keep[m] && Keep(users, Willing(users)) == keep[m + 1..] + keep[..m] + [u])
        && ((forall v :: v in keep ==> v.name == usr.name) ==> u == null && Keep(users, Willing(users)) == keep)
    {
      hide Fresh, Flags, Flagged, Suited, Keep, AllFrom, Fit, NoDup, Forward, Backward, Linked, Request, Willing, Again,
        StillThere, Stuck, FirstOther;
      ghost var q, willing, had, asked := users, Willing(users), Flagged(users), usr.questionAsked;
      AllSuited(q);
      AgainIff(q, willing, usr.name, asked);
      StuckIff(q, willing, usr.name);
      u := GetHelper(usr);
      ghost var r := Request(q, willing, usr.name, asked);
      FlagsKept(q, had, willing, r.ousted);
      RequestServes(q, willing, usr.name, asked);
      StillWilling(q, had, willing, r.ousted, users);
    }

    /** A request of a user who is no helper himself and has asked nobody before */
    method Ask(usr: User) returns (u: User?)
      requires Valid() && haveQuestions && usr.questionAsked == None
      requires var keep := Keep(users, Willing(users)); keep != [] && forall v :: v in keep ==> v.name != usr.name
      modifies `users, helpers, helpers.nodes, users`helpingHand, usr`questionAsked
      ensures Valid() && forall i :: 0 <= i < |helpers.nodes| ==> helpers.nodes[i] in old(helpers.nodes)
      ensures AllFrom(users, old(users)) && usr.questionAsked.Some?
      ensures var keep := old(Keep(users, Willing(users)));
        u == keep[0] && Keep(users, Willing(users)) == keep[1..] + [keep[0]]
    {
      hide Keep, Willing, AllFrom, Fit, NoDup, Forward, Backward, Linked;
      ghost var keep := Keep(users, Willing(users));
      assert keep[0] in keep && FirstOther(keep, usr.name, 0);
      u := Consult(usr);
      assert keep[0 + 1..] + keep[..0] + [u] == keep[1..] + [keep[0]];
    }
  }

  // ---------------------------------------------------------------- fairness

  /** The helpers that a row of users get who ask for the first time, and the queue after that */
  ghost function Served(q: seq<User>, willing: set<User>, names: seq<string>): (seq<User?>, seq<User>)
    decreases |names|
  {
    if names == [] then ([], q)
    else
      var r := Fresh(q, willing, names[0]);
      var rest := Served(r.queue, willing, names[1..]);
      ([r.helper] + rest.0, rest.1)
  }

  /** A user who is no helper gets the first one who can help, who goes to the end. */
  lemma {:induction false} FirstServed(q: seq<User>, willing: set<User>, name: string)
    requires Keep(q, willing) != [] && forall u :: u in Keep(q, willing) ==> u.name != name
    ensures var r, keep := Fresh(q, willing, name), Keep(q, willing);
      r.helper == keep[0] && Keep(r.queue, willing) == keep[1..] + [keep[0]]
  {
    var k, keep := Chosen(q, willing, name), Keep(q, willing);
    FirstKept(q, willing, name);
    NoneKept(q[..k], willing);
    assert Fresh(q, willing, name).queue == q[k + 1..] + [q[k]];
    KeepConcat(q[k + 1..], [q[k]], willing);
    assert Keep([q[k]], willing) == [q[k]];
  }

  lemma {:induction false} FirstKept(q: seq<User>, willing: set<User>, name: string)
    requires Keep(q, willing) != [] && forall u :: u in Keep(q, willing) ==> u.name != name
    ensures var k := Chosen(q, willing, name);
      && k < |q| && Keep(q, willing)[0] == q[k] && Keep(q[k + 1..], willing) == Keep(q, willing)[1..]
      && forall i :: 0 <= i < k ==> !Fit(q[i], willing)
  {
    if Fit(q[0], willing) {
      assert Keep(q, willing)[0] == q[0];
    } else {
      FirstKept(q[1..], willing, name);
      var k := Chosen(q, willing, name);
      assert q[1..][k..] == q[k + 1..];
      assert forall i :: 0 < i < k ==> q[i] == q[1..][i - 1];
    }
  }

  lemma {:induction false} NoneKept(q: seq<User>, willing: set<User>)
    requires forall i :: 0 <= i < |q| ==> !Fit(q[i], willing)
    ensures Keep(q, willing) == []
  {
    if q != [] {
      NoneKept(q[1..], willing);
    }
  }

  /** The loop ends for every user if the names in the queue differ. */
  lemma {:induction false} DifferentNamesEnd(q: seq<User>, willing: set<User>, name: string)
    requires forall i, j :: 0 <= i < j < |q| ==> q[i].name != q[j].name
    ensures !Stuck(q, willing, name)
  {
    if q != [] && Chosen(q, willing, name) == |q| {
      if Fit(q[0], willing) {
        NoneKept(q[1..], willing);
      } else {
        TurnedDown(q, willing, name);
        DifferentNamesEnd(q[1..], willing, name);
      }
    }
  }

  /** As many requests as there are helpers, from users who are none, go to all of them once, in the order of the
      queue; fewer requests go to the first ones, and these are then the last. */
  lemma {:induction false} HelpersTakeTurns(q: seq<User>, willing: set<User>, names: seq<string>)
    requires |names| <= |Keep(q, willing)|
    requires forall u, i :: u in Keep(q, willing) && 0 <= i < |names| ==> u.name != names[i]
    ensures var r, keep, m := Served(q, willing, names), Keep(q, willing), |names|;
      r.0 == keep[..m] && Keep(r.1, willing) == keep[m..] + keep[..m]
    decreases |names|
  {
    hide Fresh;
    var keep := Keep(q, willing);
    if names != [] {
      var r := Fresh(q, willing, names[0]);
      FirstServed(q, willing, names[0]);
      var next := Keep(r.queue, willing);
      forall u, i | u in next && 0 <= i < |names[1..]|
        ensures u.name != names[1..][i]
      {
        assert u in keep && names[1..][i] == names[i + 1];
      }
      HelpersTakeTurns(r.queue, willing, names[1..]);
      Rotated(keep, |names|);
    }
  }

  lemma Rotated<T>(keep: seq<T>, m: nat)
    requires 0 < m <= |keep|
    ensures var next := keep[1..] + [keep[0]];
      [keep[0]] + next[..m - 1] == keep[..m] && next[m - 1..] + next[..m - 1] == keep[m..] + keep[..m]
  {
    var next := keep[1..] + [keep[0]];
    assert next[..m - 1] == keep[1..m] && next[m - 1..] == keep[m..] + [keep[0]];
  }

  /** With different helpers in the queue, the same one is not chosen again before all others were. */
  lemma {:induction false} HelpersDiffer(q: seq<User>, willing: set<User>, names: seq<string>)
    requires NoDup(q) && |names| <= |Keep(q, willing)|
    requires forall u, i :: u in Keep(q, willing) && 0 <= i < |names| ==> u.name != names[i]
    ensures NoDup(Served(q, willing, names).0) && null !in Served(q, willing, names).0
  {
    HelpersTakeTurns(q, willing, names);
    KeptDiffer(q, willing);
  }

  lemma {:induction false} KeptDiffer(q: seq<User>, willing: set<User>)
    requires NoDup(q)
    ensures NoDup(Keep(q, willing))
  {
    if q != [] {
      KeptDiffer(q[1..], willing);
      KeepExactly(q[1..], willing, q[0]);
    }
  }

  /** Users who have asked nobody before */
  ghost predicate Newcomers(usrs: seq<User>)
    reads usrs`questionAsked
  {
    forall i :: 0 <= i < |usrs| ==> usrs[i].questionAsked == None
  }

  /** None of the users has the name of one who may be chosen. */
  ghost predicate Outsiders(usrs: seq<User>, keep: seq<User>) {
    forall i, u :: 0 <= i < |usrs| && u in keep ==> u.name != usrs[i].name
  }

  /** The first i have been chosen, and stand at the end now. */
  ghost function Around(keep: seq<User>, i: nat): (r: seq<User>)
    requires i <= |keep|
    ensures |r| == |keep| && (i == 0 ==> r == keep)
  {
    keep[i..] + keep[..i]
  }

  lemma AroundOnce(keep: seq<User>, i: nat)
    requires i < |keep|
    ensures Around(keep, i)[0] == keep[i] && Around(keep, i)[1..] + [keep[i]] == Around(keep, i + 1)
  {
  }

  lemma AroundAll(keep: seq<User>, m: nat)
    requires m <= |keep|
    ensures Around(keep, m) == keep[m..] + keep[..m]
  {
  }

  lemma NextOutsider(usrs: seq<User>, keep: seq<User>, i: nat)
    requires NoDup(usrs) && Outsiders(usrs, keep) && i < |usrs| <= |keep|
    ensures (forall v :: v in Around(keep, i) ==> v.name != usrs[i].name) && usrs[i] !in usrs[i + 1..]
    ensures usrs[i..] == [usrs[i]] + usrs[i + 1..]
  {
  }

  lemma {:induction false} FirstDiffer(all: seq<User>, willing: set<User>, us: seq<User?>)
    requires NoDup(all) && |us| <= |Keep(all, willing)| && us == Keep(all, willing)[..|us|]
    ensures NoDup(us)
  {
    KeptDiffer(all, willing);
  }

  /** The pool at work: users who are no helpers ask, one after the other and each for the first time. They get
      different helpers, those of the queue in their order, and these are then the last ones in the queue. */
  method AskAll(pool: Pool, usrs: seq<User>) returns (us: seq<User?>)
    requires pool.Valid() && pool.haveQuestions && NoDup(usrs) && Newcomers(usrs)
    requires |usrs| <= |Keep(pool.users, pool.Willing(pool.users))|
    requires Outsiders(usrs, Keep(pool.users, pool.Willing(pool.users)))
    modifies pool`users, pool.helpers, pool.helpers.nodes, pool.users`helpingHand, usrs`questionAsked
    ensures pool.Valid()
    ensures var keep := old(Keep(pool.users, pool.Willing(pool.users)));
      us == keep[..|usrs|] && Keep(pool.users, pool.Willing(pool.users)) == keep[|usrs|..] + keep[..|usrs|]
    ensures old(NoDup(pool.users)) ==> NoDup(us)
  {
    hide Keep, Fit, Around, NoDup, Outsiders;
    ghost var all, keep := pool.users, Keep(pool.users, pool.Willing(pool.users));
    us := [];
    var i := 0;
    while i < |usrs|
      invariant i <= |usrs| && pool.Valid() && Newcomers(usrs[i..]) && AllFrom(pool.users, all)
      invariant forall j :: 0 <= j < |pool.helpers.nodes| ==> pool.helpers.nodes[j] in old(pool.helpers.nodes)
      invariant us == keep[..i] && Keep(pool.users, pool.Willing(pool.users)) == Around(keep, i)
    {
      AroundOnce(keep, i);
      NextOutsider(usrs, keep, i);
      var u := pool.Ask(usrs[i]);
      us := us + [u];
      i := i + 1;
    }
    AroundAll(keep, |usrs|);
    if NoDup(all) {
      FirstDiffer(all, old(pool.Willing(pool.users)), us);
    }
  }

  /** A user who can help is added twice to a new pool, and his own request does not end. */
  method AddedTwice(helperAge: int, usr: User) returns (pool: Pool)
    requires usr.name != "" && usr.helpingHand && usr.totalTime / SECS_IN_DAY >= helperAge
    modifies usr`helpingHand
    ensures fresh(pool) && pool.Valid() && pool.haveQuestions && Stuck(pool.users, pool.Willing(pool.users), usr.name)
  {
    pool := new Pool(true, helperAge);
    pool.Add(usr);
    pool.Add(usr);
    assert pool.users == [] + [usr, usr];
    assert pool.users[0] in pool.Willing(pool.users);
    AddedTwiceStuckIff([], pool.Willing(pool.users), usr);
  }
}
