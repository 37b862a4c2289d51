/** What the fields of the allocator of src/Slub.c say, as values: the slab lists, the page table, the
    ledger of live addresses and the counters, and what each step of the allocator does to them.
    A slab is known by the address of its page. The two slab queues of a size class are held as sequences,
    front (tail) first; Queue.dfy shows that the linked queue operations have exactly this effect. */
module SlubState {
  import opened Common
  import opened SlubPage
  import opened PageTable

  datatype MemCache = MemCache(size: nat, full: seq<nat>, partial: seq<nat>)

  /** The memcache a slab belongs to, and its free slots in chain order. */
  datatype Slab = Slab(cache: nat, free: seq<nat>)

  type Slabs = map<nat, Slab>

  /** What a live address stands for: a slot of a slab. */
  datatype Block = Block(slab: nat, cache: nat, slot: nat)

  type Live = map<nat, Block>

  ghost function Addr(s: nat, cache: nat, k: nat): nat {
    s + Offset(k, CacheSize(cache))
  }

  ghost predicate IsLive(slabs: Slabs, s: nat, k: nat) {
    s in slabs && k < Capacity(CacheSize(slabs[s].cache)) && k !in slabs[s].free
  }

  /** n bytes at a and m bytes at b do not overlap. */
  ghost predicate Disjoint(a: nat, n: nat, b: nat, m: nat) {
    a + n <= b || b + m <= a
  }

  // ---------------------------------------------------------------- what holds between two calls

  /** Pages lie apart, and none is the page of the null pointer. */
  ghost predicate PagesApart(slabs: Slabs) {
    && (forall s :: s in slabs ==> s >= SLUB_PAGESIZE && slabs[s].cache < NUM_MEMCACHES)
    && (forall s, t :: s in slabs && t in slabs && s != t ==> Disjoint(s, SLUB_PAGESIZE, t, SLUB_PAGESIZE))
  }

  ghost predicate CacheLists(i: nat, mc: MemCache, slabs: Slabs) {
    && mc.size == CacheSize(i) && NoDup(mc.full) && NoDup(mc.partial)
    && (forall s :: s in mc.full <==> s in slabs && slabs[s].cache == i && slabs[s].free == [])
    && (forall s :: s in mc.partial <==> s in slabs && slabs[s].cache == i && slabs[s].free != [])
  }

  /** Every slab is once on exactly one list: full if it has no free slot, else partial. */
  ghost predicate Listed(mcs: seq<MemCache>, slabs: Slabs) {
    |mcs| == NUM_MEMCACHES && forall i :: 0 <= i < |mcs| ==> CacheLists(i, mcs[i], slabs)
  }

  ghost function Entries(slabs: Slabs): (r: set<Entry>)
    ensures forall e :: e in r <==> e.page in slabs && e.memcache == slabs[e.page].cache
  {
    set s | s in slabs :: Entry(s, slabs[s].cache)
  }

  /** Every slab has its one entry in the page table, and nothing else has. */
  ghost predicate Registered(table: seq<Entry>, needsSorting: bool, slabs: Slabs) {
    && table != [] && NullsAreEmpty(table)
    && (!needsSorting ==> SortedByPage(table))
    && Owned(table) == multiset(Entries(slabs))
  }

  /** The live addresses are exactly the addresses of the slots that are not free. */
  ghost predicate Ledger(live: Live, slabs: Slabs) {
    && (forall a :: a in live ==>
          && IsLive(slabs, live[a].slab, live[a].slot) && live[a].cache == slabs[live[a].slab].cache
          && a == Addr(live[a].slab, live[a].cache, live[a].slot))
    && (forall s, k: nat :: s in slabs && IsLive(slabs, s, k) ==>
          Addr(s, slabs[s].cache, k) in live && live[Addr(s, slabs[s].cache, k)] == Block(s, slabs[s].cache, k))
  }

  /** calloc()ed blocks lie outside every page and apart from each other. */
  ghost predicate ForeignApart(foreign: map<nat, nat>, slabs: Slabs) {
    && (forall a :: a in foreign ==> a >= SLUB_PAGESIZE && foreign[a] > 0)
    && (forall a, s :: a in foreign && s in slabs ==> Disjoint(a, foreign[a], s, SLUB_PAGESIZE))
    && (forall a, b :: a in foreign && b in foreign && a != b ==> Disjoint(a, foreign[a], b, foreign[b]))
  }

  /** No slab without a live object is kept. */
  ghost predicate NoneIdle(slabs: Slabs) {
    forall s :: s in slabs ==> |slabs[s].free| < Capacity(CacheSize(slabs[s].cache))
  }

  ghost function InCache(live: Live, i: nat): set<nat> {
    set a | a in live && live[a].cache == i
  }

  /** The class sizes of all live objects in the first n memcaches, summed. */
  ghost function ClassBytes(live: Live, n: nat): nat {
    if n == 0 then 0 else ClassBytes(live, n - 1) + |InCache(live, n - 1)| * CacheSize(n - 1)
  }

  // ---------------------------------------------------------------- the ledger through each step

  lemma AddrInjective(slabs: Slabs, s: nat, k: nat, t: nat, j: nat)
    requires PagesApart(slabs) && s in slabs && t in slabs
    requires k < Capacity(CacheSize(slabs[s].cache)) && j < Capacity(CacheSize(slabs[t].cache))
    requires Addr(s, slabs[s].cache, k) == Addr(t, slabs[t].cache, j)
    ensures s == t && k == j
  {
    OffsetInPage(k, CacheSize(slabs[s].cache));
    OffsetInPage(j, CacheSize(slabs[t].cache));
    if s == t && k != j {
      SlotsApart(j, k, CacheSize(slabs[s].cache));
    }
  }

  lemma NotYetLive(live: Live, slabs: Slabs, s: nat, k: nat)
    requires PagesApart(slabs) && Ledger(live, slabs)
    requires s in slabs && k < Capacity(CacheSize(slabs[s].cache)) && k in slabs[s].free
    ensures Addr(s, slabs[s].cache, k) !in live
  {
    var a := Addr(s, slabs[s].cache, k);
    if a in live {
      var b := live[a];
      assert IsLive(slabs, b.slab, b.slot);
      AddrInjective(slabs, s, k, b.slab, b.slot);
    }
  }

  ghost predicate Takeable(slab: Slab) {
    slab.free != [] && NoDup(slab.free) && slab.free[0] < Capacity(CacheSize(slab.cache)) &&
    |slab.free| <= Capacity(CacheSize(slab.cache))
  }

  lemma LedgerTake(live: Live, slabs: Slabs, s: nat)
    requires PagesApart(slabs) && Ledger(live, slabs) && s in slabs && Takeable(slabs[s])
    ensures var slab := slabs[s]; var k := slab.free[0]; var a := Addr(s, slab.cache, k);
      a !in live && Ledger(live[a := Block(s, slab.cache, k)], slabs[s := slab.(free := slab.free[1..])])
  {
    var slab := slabs[s];
    var k := slab.free[0];
    NotYetLive(live, slabs, s, k);
    var slabs' := slabs[s := slab.(free := slab.free[1..])];
    var live' := live[Addr(s, slab.cache, k) := Block(s, slab.cache, k)];
    assert slab.free == [k] + slabs'[s].free;
    forall t, j: nat | t in slabs' && IsLive(slabs', t, j)
      ensures var a := Addr(t, slabs'[t].cache, j); a in live' && live'[a] == Block(t, slabs'[t].cache, j)
    {
      assert (t == s && j == k) || IsLive(slabs, t, j);
    }
  }

  lemma LedgerReturn(live: Live, slabs: Slabs, s: nat, k: nat)
    requires PagesApart(slabs) && Ledger(live, slabs) && IsLive(slabs, s, k)
    ensures var slab := slabs[s];
      Ledger(live - {Addr(s, slab.cache, k)}, slabs[s := slab.(free := [k] + slab.free)])
  {
    var slab := slabs[s];
    var slabs', live' := slabs[s := slab.(free := [k] + slab.free)], live - {Addr(s, slab.cache, k)};
    forall t, j: nat | t in slabs' && IsLive(slabs', t, j)
      ensures var a := Addr(t, slabs'[t].cache, j); a in live' && live'[a] == Block(t, slabs'[t].cache, j)
    {
      assert IsLive(slabs, t, j);
      if Addr(t, slabs'[t].cache, j) == Addr(s, slab.cache, k) {
        AddrInjective(slabs, s, k, t, j);
      }
    }
    forall a | a in live'
      ensures IsLive(slabs', live[a].slab, live[a].slot)
    {
      assert IsLive(slabs, live[a].slab, live[a].slot);
    }
  }

  lemma LedgerAdd(live: Live, slabs: Slabs, s: nat, cache: nat)
    requires Ledger(live, slabs) && s !in slabs
    ensures Ledger(live, slabs[s := Slab(cache, Ascending(Capacity(CacheSize(cache))))])
  {
    var slabs' := slabs[s := Slab(cache, Ascending(Capacity(CacheSize(cache))))];
    forall t, j: nat | t in slabs' && IsLive(slabs', t, j)
      ensures t in slabs && IsLive(slabs, t, j)
    {
    }
    forall a | a in live
      ensures IsLive(slabs', live[a].slab, live[a].slot)
    {
      assert IsLive(slabs, live[a].slab, live[a].slot);
    }
  }

  lemma LedgerDrop(live: Live, slabs: Slabs, s: nat)
    requires Ledger(live, slabs) && s in slabs
    requires forall k: nat :: !IsLive(slabs, s, k)
    ensures Ledger(live, slabs - {s})
  {
    var slabs' := slabs - {s};
    forall a | a in live
      ensures IsLive(slabs', live[a].slab, live[a].slot)
    {
      assert IsLive(slabs, live[a].slab, live[a].slot);
    }
    forall t, j: nat | t in slabs' && IsLive(slabs', t, j)
      ensures IsLive(slabs, t, j)
    {
    }
  }

  // ---------------------------------------------------------------- the lists through each step

  /** The queue without s (remove_Slub). */
  function WithoutSlab(q: seq<nat>, s: nat): seq<nat> {
    if q == [] then [] else if q[0] == s then q[1..] else [q[0]] + WithoutSlab(q[1..], s)
  }

  lemma {:induction false} WithoutMembers(q: seq<nat>, s: nat)
    requires NoDup(q)
    ensures NoDup(WithoutSlab(q, s))
    ensures forall t :: t in WithoutSlab(q, s) <==> t in q && t != s
  {
    if q != [] {
      WithoutMembers(q[1..], s);
      assert q == [q[0]] + q[1..];
      if q[0] == s {
        assert s !in q[1..];
      } else {
        assert q[0] !in q[1..];
      }
    }
  }

  function Set(mcs: seq<MemCache>, i: nat, full: seq<nat>, partial: seq<nat>): seq<MemCache>
    requires i < |mcs|
  {
    mcs[i := MemCache(mcs[i].size, full, partial)]
  }

  /** Any change of the lists of memcache i that fits a change of one slab of it. */
  lemma ListedStep(mcs: seq<MemCache>, slabs: Slabs, s: nat, slab: Slab, full: seq<nat>, partial: seq<nat>)
    requires Listed(mcs, slabs) && slab.cache < NUM_MEMCACHES && (s in slabs ==> slabs[s].cache == slab.cache)
    requires NoDup(full) && NoDup(partial)
    requires forall t :: t in full <==> (t in mcs[slab.cache].full && t != s) || (t == s && slab.free == [])
    requires forall t :: t in partial <==> (t in mcs[slab.cache].partial && t != s) || (t == s && slab.free != [])
    ensures Listed(Set(mcs, slab.cache, full, partial), slabs[s := slab])
  {
    var i, slabs' := slab.cache, slabs[s := slab];
    var mcs' := Set(mcs, i, full, partial);
    forall j | 0 <= j < |mcs'|
      ensures CacheLists(j, mcs'[j], slabs')
    {
      assert CacheLists(j, mcs[j], slabs);
    }
  }

  lemma ListedDrop(mcs: seq<MemCache>, slabs: Slabs, s: nat)
    requires Listed(mcs, slabs) && s in slabs && slabs[s].free != [] && slabs[s].cache < NUM_MEMCACHES
    ensures var i := slabs[s].cache; Listed(Set(mcs, i, mcs[i].full, WithoutSlab(mcs[i].partial, s)), slabs - {s})
  {
    var i, slabs' := slabs[s].cache, slabs - {s};
    assert CacheLists(i, mcs[i], slabs);
    WithoutMembers(mcs[i].partial, s);
    var mcs' := Set(mcs, i, mcs[i].full, WithoutSlab(mcs[i].partial, s));
    forall j | 0 <= j < |mcs'|
      ensures CacheLists(j, mcs'[j], slabs')
    {
      assert CacheLists(j, mcs[j], slabs);
    }
  }

  // ---------------------------------------------------------------- the table through each step

  lemma RegisteredAdd(slabs: Slabs, s: nat, slab: Slab)
    requires s !in slabs
    ensures multiset(Entries(slabs)) + multiset{Entry(s, slab.cache)} == multiset(Entries(slabs[s := slab]))
  {
    assert Entries(slabs[s := slab]) == Entries(slabs) + {Entry(s, slab.cache)};
    assert Entry(s, slab.cache) !in Entries(slabs);
  }

  lemma RegisteredDrop(slabs: Slabs, s: nat)
    requires s in slabs
    ensures multiset(Entries(slabs)) - multiset{Entry(s, slabs[s].cache)} == multiset(Entries(slabs - {s}))
  {
    assert Entries(slabs - {s}) == Entries(slabs) - {Entry(s, slabs[s].cache)};
  }

  lemma RegisteredSame(slabs: Slabs, s: nat, slab: Slab)
    requires s in slabs && slab.cache == slabs[s].cache
    ensures Entries(slabs[s := slab]) == Entries(slabs)
  {
    assert slabs[s := slab].Keys == slabs.Keys;
    assert forall t :: t in slabs ==> slabs[s := slab][t].cache == slabs[t].cache;
  }

  // ---------------------------------------------------------------- all of it together

  /** What the allocator's fields say, apart from the bytes in the pages. */
  datatype View = View(mcs: seq<MemCache>, table: seq<Entry>, needsSorting: bool,
                       slabs: Slabs, live: Live, foreign: map<nat, nat>)

  ghost predicate Parts(v: View) {
    && PagesApart(v.slabs) && Listed(v.mcs, v.slabs) && Registered(v.table, v.needsSorting, v.slabs)
    && Ledger(v.live, v.slabs) && ForeignApart(v.foreign, v.slabs)
  }

  /** The whole invariant. It says Parts(v), in a form that the solver takes apart only where Unfold is called:
      the quantifier has no instance until its trigger Itself(v) is mentioned. */
  ghost predicate Sound(v: View) {
    forall w {:trigger Itself(w)} :: Itself(w) && w == v ==> Parts(w)
  }

  ghost predicate Itself(v: View) { true }

  lemma Unfold(v: View)
    requires Sound(v)
    ensures Parts(v)
  {
    assert Itself(v);
  }

  lemma Fold(v: View)
    requires Parts(v)
    ensures Sound(v)
  {
  }

  lemma SoundAtStart(v: View)
    requires |v.mcs| == NUM_MEMCACHES && forall i :: 0 <= i < |v.mcs| ==> v.mcs[i] == MemCache(CacheSize(i), [], [])
    requires |v.table| > 0 && (forall i :: 0 <= i < |v.table| ==> v.table[i] == EMPTY)
    requires v.slabs == map[] && v.live == map[] && v.foreign == map[]
    ensures Sound(v)
  {
    assert v.table == seq(|v.table|, _ => EMPTY) + [];
    EmptiesOwnNothing(|v.table|, []);
    assert Owned(v.table) == multiset{};
    Fold(v);
  }

  /** malloc or calloc returned `size` bytes that nothing else uses. */
  ghost predicate Fresh(address: nat, size: nat, v: View) {
    && address >= SLUB_PAGESIZE && size > 0
    && (forall s :: s in v.slabs ==> Disjoint(address, size, s, SLUB_PAGESIZE))
    && (forall a :: a in v.foreign ==> Disjoint(a, v.foreign[a], address, size))
  }

  /** The new slab s is all there is on the partial list of memcache i. */
  ghost function Added(v: View, i: nat, s: nat, table': seq<Entry>): View
    requires i < |v.mcs|
  {
    v.(mcs := Set(v.mcs, i, v.mcs[i].full, [s]), table := table', needsSorting := true,
       slabs := v.slabs[s := Slab(i, Ascending(Capacity(CacheSize(i))))])
  }

  lemma SoundAdd(v: View, i: nat, s: nat, table': seq<Entry>)
    requires Sound(v) && i < NUM_MEMCACHES == |v.mcs| && v.mcs[i].partial == [] && Fresh(s, SLUB_PAGESIZE, v)
    requires Owned(table') == Owned(v.table) + multiset{Entry(s, i)} && NullsAreEmpty(table') && table' != []
    ensures s !in v.slabs && Sound(Added(v, i, s, table'))
  {
    Unfold(v);
    CapacityBounds(CacheSize(i));
    var slab := Slab(i, Ascending(Capacity(CacheSize(i))));
    LedgerAdd(v.live, v.slabs, s, i);
    assert CacheLists(i, v.mcs[i], v.slabs);
    ListedStep(v.mcs, v.slabs, s, slab, v.mcs[i].full, [s]);
    RegisteredAdd(v.slabs, s, slab);
    Fold(Added(v, i, s, table'));
  }

  /** A slab without free slots moves from the partial to the full list. */
  function ToFull(mcs: seq<MemCache>, i: nat, s: nat, full: bool): seq<MemCache>
    requires i < |mcs|
  {
    if full then Set(mcs, i, mcs[i].full + [s], WithoutSlab(mcs[i].partial, s)) else mcs
  }

  /** Slab s has given up its first free slot. */
  ghost function Taken(v: View, s: nat): View
    requires s in v.slabs && v.slabs[s].cache < |v.mcs| && v.slabs[s].free != []
  {
    var slab := v.slabs[s];
    v.(mcs := ToFull(v.mcs, slab.cache, s, |slab.free| == 1), slabs := v.slabs[s := slab.(free := slab.free[1..])],
       live := v.live[Addr(s, slab.cache, slab.free[0]) := Block(s, slab.cache, slab.free[0])])
  }

  /** A change of the free slots of slab s does not concern the pages and their entries. */
  lemma SlotsOnly(v: View, s: nat, slab: Slab)
    requires PagesApart(v.slabs) && Registered(v.table, v.needsSorting, v.slabs) && ForeignApart(v.foreign, v.slabs)
    requires s in v.slabs && slab.cache == v.slabs[s].cache
    ensures var slabs := v.slabs[s := slab];
      PagesApart(slabs) && Registered(v.table, v.needsSorting, slabs) && ForeignApart(v.foreign, slabs)
  {
    RegisteredSame(v.slabs, s, slab);
  }

  lemma ListedTake(mcs: seq<MemCache>, slabs: Slabs, s: nat)
    requires Listed(mcs, slabs) && s in slabs && slabs[s].free != [] && slabs[s].cache < |mcs|
    ensures var slab := slabs[s];
      Listed(ToFull(mcs, slab.cache, s, |slab.free| == 1), slabs[s := slab.(free := slab.free[1..])])
  {
    var slab := slabs[s];
    var slab', mc := slab.(free := slab.free[1..]), mcs[slab.cache];
    assert CacheLists(slab.cache, mc, slabs);
    WithoutMembers(mc.partial, s);
    if slab'.free == [] {
      ListedStep(mcs, slabs, s, slab', mc.full + [s], WithoutSlab(mc.partial, s));
    } else {
      ListedStep(mcs, slabs, s, slab', mc.full, mc.partial);
      assert Set(mcs, slab.cache, mc.full, mc.partial) == mcs;
    }
  }

  lemma ListedReturn(mcs: seq<MemCache>, slabs: Slabs, s: nat, k: nat)
    requires Listed(mcs, slabs) && s in slabs && slabs[s].cache < |mcs|
    ensures var slab := slabs[s];
      Listed(ToPartial(mcs, slab.cache, s, slab.free == []), slabs[s := slab.(free := [k] + slab.free)])
  {
    var slab := slabs[s];
    var slab', mc := slab.(free := [k] + slab.free), mcs[slab.cache];
    assert CacheLists(slab.cache, mc, slabs);
    WithoutMembers(mc.full, s);
    if slab.free == [] {
      ListedStep(mcs, slabs, s, slab', WithoutSlab(mc.full, s), mc.partial + [s]);
    } else {
      ListedStep(mcs, slabs, s, slab', mc.full, mc.partial);
      assert Set(mcs, slab.cache, mc.full, mc.partial) == mcs;
    }
  }

  lemma CacheInRange(v: View, s: nat)
    requires Listed(v.mcs, v.slabs) && PagesApart(v.slabs) && s in v.slabs
    ensures v.slabs[s].cache < |v.mcs|
  {
  }

  lemma SoundTake(v: View, s: nat)
    requires Sound(v) && s in v.slabs && Takeable(v.slabs[s])
    ensures v.slabs[s].cache < |v.mcs| && Sound(Taken(v, s))
    ensures Addr(s, v.slabs[s].cache, v.slabs[s].free[0]) !in v.live
  {
    hide PagesApart, Listed, Registered, Ledger, ForeignApart;
    Unfold(v);
    CacheInRange(v, s);
    LedgerTake(v.live, v.slabs, s);
    ListedTake(v.mcs, v.slabs, s);
    SlotsOnly(v, s, v.slabs[s].(free := v.slabs[s].free[1..]));
    Fold(Taken(v, s));
  }

  /** A slab that was full moves back to the partial list. */
  function ToPartial(mcs: seq<MemCache>, i: nat, s: nat, wasFull: bool): seq<MemCache>
    requires i < |mcs|
  {
    if wasFull then Set(mcs, i, WithoutSlab(mcs[i].full, s), mcs[i].partial + [s]) else mcs
  }

  /** Slot k of s is free again, and s is kept. */
  ghost function Returned(v: View, s: nat, k: nat): View
    requires s in v.slabs && v.slabs[s].cache < |v.mcs|
  {
    var slab := v.slabs[s];
    v.(mcs := ToPartial(v.mcs, slab.cache, s, slab.free == []),
       slabs := v.slabs[s := slab.(free := [k] + slab.free)], live := v.live - {Addr(s, slab.cache, k)})
  }

  lemma SoundReturn(v: View, s: nat, k: nat)
    requires Sound(v) && IsLive(v.slabs, s, k)
    ensures v.slabs[s].cache < |v.mcs| && Sound(Returned(v, s, k))
  {
    hide PagesApart, Listed, Registered, Ledger, ForeignApart;
    Unfold(v);
    CacheInRange(v, s);
    LedgerReturn(v.live, v.slabs, s, k);
    ListedReturn(v.mcs, v.slabs, s, k);
    SlotsOnly(v, s, v.slabs[s].(free := [k] + v.slabs[s].free));
    Fold(Returned(v, s, k));
  }

  /** The idle slab s, whose entry is number p, is gone. */
  ghost function Dropped(v: View, s: nat, p: nat): View
    requires s in v.slabs && v.slabs[s].cache < |v.mcs| && p < |v.table|
  {
    var i := v.slabs[s].cache;
    v.(mcs := Set(v.mcs, i, v.mcs[i].full, WithoutSlab(v.mcs[i].partial, s)), slabs := v.slabs - {s},
       table := v.table[p := EMPTY], needsSorting := true)
  }

  lemma SoundDrop(v: View, s: nat, p: nat)
    requires Sound(v) && s in v.slabs && v.slabs[s].free != [] && forall k: nat :: !IsLive(v.slabs, s, k)
    requires p < |v.table| && v.table[p] == Entry(s, v.slabs[s].cache)
    ensures v.slabs[s].cache < |v.mcs| && Sound(Dropped(v, s, p))
  {
    Unfold(v);
    LedgerDrop(v.live, v.slabs, s);
    ListedDrop(v.mcs, v.slabs, s);
    RegisteredDrop(v.slabs, s);
    ReleaseEntry(v.table, p);
    Fold(Dropped(v, s, p));
  }

  /** Slub_free has run on slab s; its list has not been looked at yet. */
  ghost function Freed(v: View, s: nat, k: nat): View
    requires s in v.slabs
  {
    var slab := v.slabs[s];
    v.(slabs := v.slabs[s := slab.(free := [k] + slab.free)], live := v.live - {Addr(s, slab.cache, k)})
  }

  /** The slab has been moved to the partial list, or taken off its list and destroyed. In the latter case the
      page table still has its entry. */
  ghost function Relisted(v: View, s: nat, wasFull: bool, gone: bool): View
    requires s in v.slabs && v.slabs[s].cache < |v.mcs|
  {
    var i := v.slabs[s].cache;
    if gone
    then v.(mcs := Set(v.mcs, i, v.mcs[i].full, WithoutSlab(v.mcs[i].partial, s)), slabs := v.slabs - {s})
    else v.(mcs := ToPartial(v.mcs, i, s, wasFull))
  }

  ghost predicate LastLive(slab: Slab) {
    |slab.free| + 1 >= Capacity(CacheSize(slab.cache))
  }

  /** How many pages it gives back. */
  ghost function PagesGone(slab: Slab): int {
    if LastLive(slab) then 1 else 0
  }

  /** What MemCache_free leaves behind. */
  ghost function Released(v: View, s: nat, k: nat): View
    requires s in v.slabs && v.slabs[s].cache < |v.mcs|
  {
    Relisted(Freed(v, s, k), s, v.slabs[s].free == [], LastLive(v.slabs[s]))
  }

  lemma CacheExists(v: View, s: nat)
    requires Sound(v) && s in v.slabs
    ensures v.slabs[s].cache < |v.mcs| == NUM_MEMCACHES
  {
    Unfold(v);
  }

  lemma SoundRelease(v: View, s: nat, k: nat)
    requires Sound(v) && IsLive(v.slabs, s, k) && !LastLive(v.slabs[s])
    ensures v.slabs[s].cache < |v.mcs| && Sound(Released(v, s, k))
  {
    SoundReturn(v, s, k);
    assert Released(v, s, k) == Returned(v, s, k);
  }

  lemma SoundVacate(v: View, s: nat, k: nat, p: nat)
    requires Sound(v) && IsLive(v.slabs, s, k) && v.slabs[s].free != [] && LastLive(v.slabs[s])
    requires NoDup(v.slabs[s].free) && forall j :: j in v.slabs[s].free ==> j < Capacity(CacheSize(v.slabs[s].cache))
    requires p < |v.table| && v.table[p] == Entry(s, v.slabs[s].cache)
    ensures v.slabs[s].cache < |v.mcs|
    ensures Sound(Released(v, s, k).(table := v.table[p := EMPTY], needsSorting := true))
  {
    SoundReturn(v, s, k);
    var w := Returned(v, s, k);
    AllFree([k] + v.slabs[s].free, Capacity(CacheSize(v.slabs[s].cache)));
    SoundDrop(w, s, p);
    assert Dropped(w, s, p) == Released(v, s, k).(table := v.table[p := EMPTY], needsSorting := true);
  }

  /** Both cases: the state after memcache_free has cleaned the page table if the slab is gone. */
  ghost function Cleaned(v: View, s: nat, k: nat, p: nat): View
    requires s in v.slabs && v.slabs[s].cache < |v.mcs| && p < |v.table|
  {
    if LastLive(v.slabs[s]) then Released(v, s, k).(table := v.table[p := EMPTY], needsSorting := true)
    else Released(v, s, k)
  }

  lemma SoundCleaned(v: View, s: nat, k: nat, p: nat, m: seq<byte>, at: map<nat, Slub>)
    requires Sound(v) && PagesHold(m, at, v.slabs) && IsLive(v.slabs, s, k)
    requires p < |v.table| && v.table[p] == Entry(s, v.slabs[s].cache)
    ensures v.slabs[s].cache < |v.mcs| && Sound(Cleaned(v, s, k, p))
  {
    if LastLive(v.slabs[s]) {
      assert at[s].Holds(m, s, v.slabs[s].free);
      CacheExists(v, s);
      CapacityBounds(CacheSize(v.slabs[s].cache));
      SoundVacate(v, s, k, p);
    } else {
      SoundRelease(v, s, k);
    }
  }

  lemma LiveSlot(v: View, a: nat)
    requires Sound(v) && a in v.live
    ensures var b := v.live[a]; IsLive(v.slabs, b.slab, b.slot) && v.slabs[b.slab].cache == b.cache < NUM_MEMCACHES
    ensures a == Addr(v.live[a].slab, v.live[a].cache, v.live[a].slot) && a != 0
  {
    Unfold(v);
  }

  lemma NullNotLive(v: View)
    requires Sound(v)
    ensures v.live - {0} == v.live && v.foreign - {0} == v.foreign
  {
    Unfold(v);
    if 0 in v.live {
      LiveSlot(v, 0);
    }
  }

  lemma SoundSort(v: View, t: seq<Entry>)
    requires Sound(v) && SortedByPage(t) && multiset(t) == multiset(v.table) && NullsAreEmpty(t)
    ensures Sound(v.(table := t, needsSorting := false))
  {
    Unfold(v);
    assert |multiset(t)| == |t|;
    Fold(v.(table := t, needsSorting := false));
  }

  lemma ForeignDrop(v: View, a: nat)
    requires Sound(v)
    ensures Sound(v.(foreign := v.foreign - {a}))
  {
    Unfold(v);
    Fold(v.(foreign := v.foreign - {a}));
  }

  /** n distinct numbers below n are all of them. */
  lemma AllFree(free: seq<nat>, n: nat)
    requires NoDup(free) && |free| >= n && forall j :: j in free ==> j < n
    ensures forall j: nat :: j < n ==> j in free
  {
    Distinct(free);
    assert forall i :: 0 <= i < |free| ==> free[i] in free;
    Complement(free, n);
    forall j: nat | j < n
      ensures j in free
    {
      assert j !in free ==> j in Range(n) - set i | i in free;
    }
  }

  /** The slab that serves a request to memcache i: the one at partial.head, or else a new one. */
  ghost predicate Serves(v: View, i: nat, s: nat, address: nat, table': seq<Entry>) {
    && i < |v.mcs|
    && if v.mcs[i].partial == []
       then s == address && NullsAreEmpty(table') && table' != []
         && Owned(table') == Owned(v.table) + multiset{Entry(s, i)}
       else s == v.mcs[i].partial[|v.mcs[i].partial| - 1] && table' == v.table
  }

  /** The state in which the serving slab stands ready. */
  ghost function With(v: View, i: nat, s: nat, table': seq<Entry>): View
    requires i < |v.mcs|
  {
    if v.mcs[i].partial == [] then Added(v, i, s, table') else v
  }

  lemma SoundFacts(v: View, i: nat, address: nat)
    requires Sound(v) && i < NUM_MEMCACHES
    ensures |v.mcs| == NUM_MEMCACHES && v.mcs[i].size == CacheSize(i)
    ensures v.table != [] && NullsAreEmpty(v.table) && (!v.needsSorting ==> SortedByPage(v.table))
    ensures Fresh(address, SLUB_PAGESIZE, v) ==> address !in v.slabs
    ensures forall s :: s in v.mcs[i].partial ==> s in v.slabs
  {
    Unfold(v);
    assert CacheLists(i, v.mcs[i], v.slabs);
  }

  lemma WithSound(v: View, i: nat, s: nat, address: nat, table': seq<Entry>)
    requires Sound(v) && i < NUM_MEMCACHES && Serves(v, i, s, address, table')
    requires v.mcs[i].partial == [] ==> Fresh(address, SLUB_PAGESIZE, v)
    ensures var w := With(v, i, s, table');
      Sound(w) && s in w.slabs && w.slabs[s].cache == i && w.slabs[s].free != []
    ensures v.mcs[i].partial == [] ==> s !in v.slabs
  {
    Unfold(v);
    assert CacheLists(i, v.mcs[i], v.slabs);
    if v.mcs[i].partial == [] {
      CapacityBounds(CacheSize(i));
      SoundAdd(v, i, s, table');
    } else {
      assert s in v.mcs[i].partial;
    }
  }

  /** Slab s stands ready to serve memcache i from its first free slot. */
  ghost predicate Ready(v: View, i: nat, s: nat, table': seq<Entry>) {
    && i < |v.mcs| && s in With(v, i, s, table').slabs && With(v, i, s, table').slabs[s].cache == i
    && Takeable(With(v, i, s, table').slabs[s]) && (v.mcs[i].partial == [] ==> s !in v.slabs)
  }

  /** What is freed last is handed out first: a slab that was full, or was at partial.head already, serves the next
      request from the slot that has just been given back. */
  lemma JustFreedIsNext(v: View, s: nat, k: nat, t: nat, address: nat, table': seq<Entry>)
    requires Sound(v) && IsLive(v.slabs, s, k) && v.slabs[s].cache < |v.mcs|
    requires var p := v.mcs[v.slabs[s].cache].partial; v.slabs[s].free == [] || (p != [] && p[|p| - 1] == s)
    requires Serves(Returned(v, s, k), v.slabs[s].cache, t, address, table')
    ensures t == s && With(Returned(v, s, k), v.slabs[s].cache, t, table').slabs[s].free[0] == k
  {
  }

  /** What MemCache_alloc leaves behind. */
  ghost function Served(v: View, i: nat, s: nat, table': seq<Entry>): View
    requires Ready(v, i, s, table')
  {
    Taken(With(v, i, s, table'), s)
  }

  /** How many pages it asks malloc for. */
  ghost function NewPages(v: View, i: nat): int
    requires i < |v.mcs|
  {
    if v.mcs[i].partial == [] then 1 else 0
  }

  /** The address it returns. */
  ghost function NextAddr(v: View, i: nat, s: nat, table': seq<Entry>): nat
    requires Ready(v, i, s, table')
  {
    Addr(s, i, With(v, i, s, table').slabs[s].free[0])
  }

  // ---------------------------------------------------------------- the bytes

  /** The fields of every slab, by the address of its page, fit the memory and the free slots in `slabs`. */
  ghost predicate PagesHold(m: seq<byte>, at: map<nat, Slub>, slabs: Slabs) {
    && at.Keys == slabs.Keys
    && forall s :: s in at ==> at[s].cache == slabs[s].cache && at[s].Holds(m, s, slabs[s].free)
  }

  lemma PagesStep(m: seq<byte>, m': seq<byte>, at: map<nat, Slub>, v: View, s: nat, s': Slub, free: seq<nat>)
    requires Sound(v) && PagesHold(m, at, v.slabs) && s in v.slabs && ChangedOnly(m, m', s, SLUB_PAGESIZE)
    requires s'.cache == v.slabs[s].cache && s'.Holds(m', s, free)
    ensures PagesHold(m', at[s := s'], v.slabs[s := Slab(s'.cache, free)])
  {
    hide Ledger, Listed, Registered, ForeignApart;
    Unfold(v);
    forall t | t in at && t != s
      ensures at[t].Holds(m', t, v.slabs[t].free)
    {
      Framed(m, m', s, SLUB_PAGESIZE, at[t], t, v.slabs[t].free);
    }
  }

  lemma PagesAdd(m: seq<byte>, m': seq<byte>, at: map<nat, Slub>, v: View, s: nat, s': Slub, free: seq<nat>)
    requires PagesHold(m, at, v.slabs) && Fresh(s, SLUB_PAGESIZE, v) && ChangedOnly(m, m', s, SLUB_PAGESIZE)
    requires s'.Holds(m', s, free)
    ensures PagesHold(m', at[s := s'], v.slabs[s := Slab(s'.cache, free)])
  {
    forall t | t in at
      ensures at[t].Holds(m', t, v.slabs[t].free)
    {
      Framed(m, m', s, SLUB_PAGESIZE, at[t], t, v.slabs[t].free);
    }
  }

  lemma PagesDrop(m: seq<byte>, at: map<nat, Slub>, slabs: Slabs, s: nat)
    requires PagesHold(m, at, slabs)
    ensures PagesHold(m, at - {s}, slabs - {s})
  {
  }

  lemma SlotInPage(m: seq<byte>, m': seq<byte>, s: nat, cache: nat, k: nat)
    requires k < Capacity(CacheSize(cache)) && ChangedOnly(m, m', Addr(s, cache, k), CacheSize(cache))
    ensures ChangedOnly(m, m', s, SLUB_PAGESIZE)
  {
    OffsetInPage(k, CacheSize(cache));
  }

  /** No byte of any live block differs between m and m'. */
  ghost predicate SameBytes(m: seq<byte>, m': seq<byte>, live: Live) {
    |m'| == |m| &&
    forall a, j :: a in live && a <= j < a + CacheSize(live[a].cache) && j < |m| ==> m'[j] == m[j]
  }

  lemma SameBytesTransitive(m: seq<byte>, m': seq<byte>, m'': seq<byte>, live: Live)
    requires SameBytes(m, m', live) && SameBytes(m', m'', live)
    ensures SameBytes(m, m'', live)
  {
  }

  /** No byte of any calloc()ed block differs between m and m'. */
  ghost predicate SameFar(m: seq<byte>, m': seq<byte>, foreign: map<nat, nat>) {
    |m'| == |m| && forall a, j :: a in foreign && a <= j < a + foreign[a] && j < |m| ==> m'[j] == m[j]
  }

  /** How many bytes from address a on a client may use */
  ghost function Room(v: View, a: nat): nat {
    if a in v.live then CacheSize(v.live[a].cache) else if a in v.foreign then v.foreign[a] else 0
  }

  lemma SameFarTransitive(m: seq<byte>, m': seq<byte>, m'': seq<byte>, foreign: map<nat, nat>)
    requires SameFar(m, m', foreign) && SameFar(m', m'', foreign)
    ensures SameFar(m, m'', foreign)
  {
  }

  /** A change inside the page of a slab touches no calloc()ed block, */
  lemma PageChangeFar(v: View, m: seq<byte>, m': seq<byte>, s: nat)
    requires Sound(v) && s in v.slabs && ChangedOnly(m, m', s, SLUB_PAGESIZE)
    ensures SameFar(m, m', v.foreign)
  {
    Unfold(v);
  }

  /** nor does one to bytes that malloc has just returned. */
  lemma FreshChangeFar(v: View, m: seq<byte>, m': seq<byte>, address: nat, size: nat)
    requires Fresh(address, size, v) && ChangedOnly(m, m', address, size)
    ensures SameFar(m, m', v.foreign)
  {
  }

  /** A change inside a calloc()ed block concerns no slab, no live block and no other calloc()ed block. */
  lemma ForeignBlockChange(v: View, m: seq<byte>, m': seq<byte>, at: map<nat, Slub>, a: nat)
    requires Sound(v) && PagesHold(m, at, v.slabs) && a in v.foreign && ChangedOnly(m, m', a, v.foreign[a])
    ensures SameBytes(m, m', v.live) && SameFar(m, m', v.foreign - {a}) && PagesHold(m', at, v.slabs)
  {
    var w := v.(foreign := v.foreign - {a});
    ForeignDrop(v, a);
    OwnPlace(v, a);
    FreshChange(w, m, m', at, a, v.foreign[a]);
    FreshChangeFar(w, m, m', a, v.foreign[a]);
  }

  /** What a calloc()ed block takes up would be fresh without it. */
  lemma OwnPlace(v: View, a: nat)
    requires Sound(v) && a in v.foreign
    ensures Fresh(a, v.foreign[a], v.(foreign := v.foreign - {a}))
  {
    Unfold(v);
  }

  /** A calloc()ed block overlaps no live block and no other calloc()ed block. */
  lemma ForeignBlocksDisjoint(v: View, a: nat)
    requires Sound(v) && a in v.foreign
    ensures forall b :: b in v.live ==> Disjoint(b, CacheSize(v.live[b].cache), a, v.foreign[a])
    ensures forall b :: b in v.foreign && b != a ==> Disjoint(b, v.foreign[b], a, v.foreign[a])
  {
    OwnPlace(v, a);
    forall b | b in v.live
      ensures Disjoint(b, CacheSize(v.live[b].cache), a, v.foreign[a])
    {
      LiveSlot(v, b);
      OffsetInPage(v.live[b].slot, CacheSize(v.live[b].cache));
    }
    Unfold(v);
  }

  /** A change that is confined to a free slot touches no live block. */
  lemma FreeSlotChange(v: View, m: seq<byte>, m': seq<byte>, s: nat, k: nat)
    requires Sound(v) && s in v.slabs && k < Capacity(CacheSize(v.slabs[s].cache)) && k in v.slabs[s].free
    requires ChangedOnly(m, m', Addr(s, v.slabs[s].cache, k), CacheSize(v.slabs[s].cache))
    ensures SameBytes(m, m', v.live)
  {
    Unfold(v);
    forall a, j | a in v.live && a <= j < a + CacheSize(v.live[a].cache) && j < |m|
      ensures m'[j] == m[j]
    {
      BlocksApart(v, a, s, k);
    }
  }

  lemma FreedSlotChange(v: View, m: seq<byte>, m': seq<byte>, s: nat, k: nat)
    requires Sound(v) && IsLive(v.slabs, s, k)
    requires ChangedOnly(m, m', Addr(s, v.slabs[s].cache, k), CacheSize(v.slabs[s].cache))
    ensures SameBytes(m, m', v.live - {Addr(s, v.slabs[s].cache, k)})
  {
    Unfold(v);
    forall a, j | a in v.live - {Addr(s, v.slabs[s].cache, k)} && a <= j < a + CacheSize(v.live[a].cache) && j < |m|
      ensures m'[j] == m[j]
    {
      BlocksApart(v, a, s, k);
    }
  }

  lemma BlocksApart(v: View, a: nat, s: nat, k: nat)
    requires Sound(v) && a in v.live && s in v.slabs && k < Capacity(CacheSize(v.slabs[s].cache))
    requires v.live[a].slab != s || v.live[a].slot != k
    ensures Disjoint(a, CacheSize(v.live[a].cache), Addr(s, v.slabs[s].cache, k), CacheSize(v.slabs[s].cache))
  {
    Unfold(v);
    var b := v.live[a];
    assert IsLive(v.slabs, b.slab, b.slot);
    OffsetInPage(b.slot, CacheSize(b.cache));
    OffsetInPage(k, CacheSize(v.slabs[s].cache));
    if b.slab == s {
      SlotsApart(b.slot, k, CacheSize(b.cache));
    }
  }

  /** Live blocks never overlap, and lie inside a page that the table has an entry for. */
  lemma LiveBlocksDisjoint(v: View, a: nat, b: nat)
    requires Sound(v) && a in v.live && b in v.live && a != b
    ensures Disjoint(a, CacheSize(v.live[a].cache), b, CacheSize(v.live[b].cache))
    ensures v.live[a].slab <= a && a + CacheSize(v.live[a].cache) <= v.live[a].slab + SLUB_PAGESIZE
    ensures Entry(v.live[a].slab, v.live[a].cache) in v.table
  {
    Unfold(v);
    var x, y := v.live[a], v.live[b];
    assert IsLive(v.slabs, x.slab, x.slot) && IsLive(v.slabs, y.slab, y.slot);
    OffsetInPage(x.slot, CacheSize(x.cache));
    BlocksApart(v, a, y.slab, y.slot);
    assert Entry(x.slab, x.cache) in Entries(v.slabs);
    assert Entry(x.slab, x.cache) in Owned(v.table);
  }

  lemma LiveInMemory(v: View, m: seq<byte>, at: map<nat, Slub>, a: nat)
    requires Sound(v) && PagesHold(m, at, v.slabs) && a in v.live
    ensures a + CacheSize(v.live[a].cache) <= |m|
  {
    LiveSlot(v, a);
    var b := v.live[a];
    OffsetInPage(b.slot, CacheSize(b.cache));
    assert at[b.slab].Holds(m, b.slab, v.slabs[b.slab].free);
  }

  /** A change confined to a live block leaves every other live block and every chain of free slots alone. */
  lemma LiveBlockChange(v: View, m: seq<byte>, m': seq<byte>, at: map<nat, Slub>, a: nat)
    requires Sound(v) && PagesHold(m, at, v.slabs) && a in v.live
    requires ChangedOnly(m, m', a, CacheSize(v.live[a].cache))
    ensures SameBytes(m, m', v.live - {a}) && PagesHold(m', at, v.slabs)
  {
    hide Registered, Listed;
    Unfold(v);
    var b := v.live[a];
    assert IsLive(v.slabs, b.slab, b.slot);
    forall c, j | c in v.live - {a} && c <= j < c + CacheSize(v.live[c].cache) && j < |m|
      ensures m'[j] == m[j]
    {
      BlocksApart(v, c, b.slab, b.slot);
    }
    OffsetInPage(b.slot, CacheSize(b.cache));
    forall t | t in at
      ensures at[t].Holds(m', t, v.slabs[t].free)
    {
      if t == b.slab {
        FramedBySlot(m, m', a, CacheSize(b.cache), CacheSize(b.cache), t, b.slot, v.slabs[t].free);
      } else {
        Framed(m, m', a, CacheSize(b.cache), at[t], t, v.slabs[t].free);
      }
    }
  }

  /** A change to bytes that malloc has just returned concerns no slab and no live block. */
  lemma FreshChange(v: View, m: seq<byte>, m': seq<byte>, at: map<nat, Slub>, address: nat, size: nat)
    requires Sound(v) && PagesHold(m, at, v.slabs) && Fresh(address, size, v) && ChangedOnly(m, m', address, size)
    ensures SameBytes(m, m', v.live) && PagesHold(m', at, v.slabs)
  {
    Unfold(v);
    forall a, j | a in v.live && a <= j < a + CacheSize(v.live[a].cache) && j < |m|
      ensures m'[j] == m[j]
    {
      assert IsLive(v.slabs, v.live[a].slab, v.live[a].slot);
      OffsetInPage(v.live[a].slot, CacheSize(v.live[a].cache));
    }
    forall t | t in at
      ensures at[t].Holds(m', t, v.slabs[t].free)
    {
      Framed(m, m', address, size, at[t], t, v.slabs[t].free);
    }
  }

  // ---------------------------------------------------------------- finding the owner of an address

  /** The table has an entry whose page holds the address of a live block, and only one: its slab's. */
  lemma OwnerFound(v: View, t: seq<Entry>, a: nat, r: int)
    requires Sound(v) && multiset(t) == multiset(v.table) && a in v.live
    requires -1 <= r < |t|
    requires r >= 0 ==> CmpAddress(a, t[r]) == 0
    requires r < 0 ==> forall i :: 0 <= i < |t| ==> CmpAddress(a, t[i]) != 0
    ensures r >= 0 && t[r] == Entry(v.live[a].slab, v.live[a].cache)
  {
    Unfold(v);
    var b := v.live[a];
    assert IsLive(v.slabs, b.slab, b.slot);
    OffsetInPage(b.slot, CacheSize(b.cache));
    var e := Entry(b.slab, b.cache);
    assert e in Entries(v.slabs) && e in Owned(v.table) && e in multiset(t);
    var i :| 0 <= i < |t| && t[i] == e;
    assert CmpAddress(a, t[i]) == 0;
    EntryInUse(v, t, r);
  }

  lemma EntryInUse(v: View, t: seq<Entry>, r: nat)
    requires Sound(v) && multiset(t) == multiset(v.table) && r < |t| && t[r] != EMPTY
    ensures t[r].page in v.slabs && t[r].memcache == v.slabs[t[r].page].cache
  {
    Unfold(v);
    assert t[r] in multiset(t) && t[r] in Owned(v.table) && t[r] in Entries(v.slabs);
  }

  /** No entry claims an address that calloc() returned. */
  lemma ForeignNotFound(v: View, t: seq<Entry>, a: nat, r: nat)
    requires Sound(v) && multiset(t) == multiset(v.table) && a in v.foreign && r < |t|
    ensures CmpAddress(a, t[r]) != 0
  {
    Unfold(v);
    if t[r] != EMPTY {
      EntryInUse(v, t, r);
    }
  }

  /** Address a, which nobody held, is now live in memcache i, and nothing else has changed hands. */
  ghost predicate Handed(v: View, w: View, a: nat, i: nat) {
    && a !in v.live && a !in v.foreign
    && a in w.live && w.live == v.live[a := w.live[a]] && w.live[a].cache == i && w.foreign == v.foreign
  }

  lemma ServedLive(v: View, i: nat, s: nat, table': seq<Entry>)
    requires Ready(v, i, s, table') && Sound(Served(v, i, s, table')) && NextAddr(v, i, s, table') !in v.live
    ensures Handed(v, Served(v, i, s, table'), NextAddr(v, i, s, table'), i)
  {
    LiveNotForeign(Served(v, i, s, table'), NextAddr(v, i, s, table'));
  }

  lemma ForeignAdd(v: View, address: nat, size: nat)
    requires Sound(v) && Fresh(address, size, v)
    ensures Sound(v.(foreign := v.foreign[address := size])) && address !in v.foreign && address !in v.live
  {
    hide PagesApart, Listed, Registered, Ledger, ForeignApart;
    Unfold(v);
    FreshNotLive(v, address, size);
    ForeignApartAdd(v, address, size);
    Fold(v.(foreign := v.foreign[address := size]));
  }

  lemma FreshNotLive(v: View, address: nat, size: nat)
    requires Parts(v) && Fresh(address, size, v)
    ensures address !in v.live
  {
    hide Listed, Registered;
    if address in v.live {
      var b := v.live[address];
      assert IsLive(v.slabs, b.slab, b.slot);
      OffsetInPage(b.slot, CacheSize(b.cache));
    }
  }

  lemma ForeignApartAdd(v: View, address: nat, size: nat)
    requires ForeignApart(v.foreign, v.slabs) && Fresh(address, size, v)
    ensures ForeignApart(v.foreign[address := size], v.slabs) && address !in v.foreign
  {
  }

  /** An address belongs to a slab or came from calloc(), not both. */
  lemma LiveNotForeign(v: View, a: nat)
    requires Sound(v)
    ensures a in v.live ==> v.foreign - {a} == v.foreign
    ensures a in v.foreign ==> v.live - {a} == v.live
  {
    Unfold(v);
    if a in v.live {
      var b := v.live[a];
      assert IsLive(v.slabs, b.slab, b.slot);
      OffsetInPage(b.slot, CacheSize(b.cache));
    }
  }

  // ---------------------------------------------------------------- counting

  ghost predicate Counted(nrCache: seq<int>, nrCacheAll: int, cacheBytes: int, live: Live) {
    && |nrCache| == NUM_MEMCACHES && (forall i :: 0 <= i < |nrCache| ==> nrCache[i] == |InCache(live, i)|)
    && nrCacheAll == |live| && cacheBytes == ClassBytes(live, |nrCache|)
  }

  lemma {:induction false} BytesMore(live: Live, a: nat, b: Block, n: nat)
    requires a !in live
    ensures forall i: nat :: |InCache(live[a := b], i)| == |InCache(live, i)| + if b.cache == i then 1 else 0
    ensures ClassBytes(live[a := b], n) == ClassBytes(live, n) + if b.cache < n then CacheSize(b.cache) else 0
  {
    var live' := live[a := b];
    forall i: nat
      ensures |InCache(live', i)| == |InCache(live, i)| + if b.cache == i then 1 else 0
    {
      if b.cache == i {
        assert InCache(live', i) == InCache(live, i) + {a};
      } else {
        assert InCache(live', i) == InCache(live, i);
      }
    }
    if n > 0 {
      BytesMore(live, a, b, n - 1);
      OneMore(|InCache(live, n - 1)|, CacheSize(n - 1));
    }
  }

  lemma OneMore(x: nat, y: nat)
    ensures (x + 1) * y == x * y + y
  {
  }

  datatype Books = Books(nrCache: seq<int>, nrCacheAll: int, cacheBytes: int, nrPages: int, nrForeign: int)

  /** The counters tell the truth, and no slab without a live object is kept. */
  ghost predicate Balanced(b: Books, v: View) {
    && Counted(b.nrCache, b.nrCacheAll, b.cacheBytes, v.live) && NoneIdle(v.slabs)
    && b.nrPages == |v.slabs| && b.nrForeign == 1 + |v.foreign|
  }

  /** Balanced, in the folded form of Sound. */
  ghost predicate InOrder(b: Books, v: View) {
    forall w {:trigger Itself(w)} :: Itself(w) && w == v ==> Balanced(b, w)
  }

  lemma OpenBooks(b: Books, v: View)
    requires InOrder(b, v)
    ensures Balanced(b, v)
  {
    assert Itself(v);
  }

  lemma CloseBooks(b: Books, v: View)
    requires Balanced(b, v)
    ensures InOrder(b, v)
  {
  }

  lemma SameBooks(b: Books, v: View, w: View)
    requires InOrder(b, v) && w.slabs == v.slabs && w.live == v.live && w.foreign == v.foreign
    ensures InOrder(b, w)
  {
    OpenBooks(b, v);
  }

  /** The bookkeeping of memcache_alloc and of memcache_free. */
  function Counting(b: Books, i: nat): Books
    requires i < |b.nrCache|
  {
    b.(nrCache := b.nrCache[i := b.nrCache[i] + 1], nrCacheAll := b.nrCacheAll + 1,
      cacheBytes := b.cacheBytes + CacheSize(i))
  }

  function Uncounting(b: Books, i: nat): Books
    requires i < |b.nrCache|
  {
    b.(nrCache := b.nrCache[i := b.nrCache[i] - 1], nrCacheAll := b.nrCacheAll - 1,
      cacheBytes := b.cacheBytes - CacheSize(i))
  }

  function PagesMore(b: Books, n: int): Books {
    b.(nrPages := b.nrPages + n)
  }

  lemma CountedTake(b: Books, live: Live, a: nat, x: Block)
    requires Counted(b.nrCache, b.nrCacheAll, b.cacheBytes, live) && a !in live && x.cache < NUM_MEMCACHES
    ensures var c := Counting(b, x.cache); Counted(c.nrCache, c.nrCacheAll, c.cacheBytes, live[a := x])
  {
    BytesMore(live, a, x, |b.nrCache|);
  }

  lemma CountedReturn(b: Books, live: Live, a: nat)
    requires Counted(b.nrCache, b.nrCacheAll, b.cacheBytes, live) && a in live && live[a].cache < NUM_MEMCACHES
    ensures var c := Uncounting(b, live[a].cache); Counted(c.nrCache, c.nrCacheAll, c.cacheBytes, live - {a})
  {
    var rest := live - {a};
    assert live == rest[a := live[a]];
    BytesMore(rest, a, live[a], |b.nrCache|);
  }

  /** Replacing or adding one slab that is not idle. */
  lemma NotIdleStep(slabs: Slabs, s: nat, slab: Slab)
    requires NoneIdle(slabs) && |slab.free| < Capacity(CacheSize(slab.cache))
    ensures NoneIdle(slabs[s := slab]) && |slabs[s := slab]| == |slabs| + if s in slabs then 0 else 1
  {
    assert slabs[s := slab].Keys == slabs.Keys + {s};
    if s in slabs {
      assert slabs.Keys + {s} == slabs.Keys;
    }
  }

  lemma ServedSlabs(v: View, i: nat, s: nat, table': seq<Entry>)
    requires Ready(v, i, s, table') && NoneIdle(v.slabs)
    ensures var slabs' := Served(v, i, s, table').slabs; NoneIdle(slabs') && |slabs'| == |v.slabs| + NewPages(v, i)
  {
    var w := With(v, i, s, table');
    NotIdleStep(v.slabs, s, w.slabs[s].(free := w.slabs[s].free[1..]));
    assert v.slabs[s := w.slabs[s].(free := w.slabs[s].free[1..])] == Served(v, i, s, table').slabs;
  }

  /** An allocation keeps the books: one page more exactly if a slab had to be made. */
  lemma BooksServed(b: Books, v: View, i: nat, s: nat, table': seq<Entry>)
    requires InOrder(b, v) && Ready(v, i, s, table') && i < NUM_MEMCACHES && NextAddr(v, i, s, table') !in v.live
    requires Sound(Served(v, i, s, table'))
    ensures i < |b.nrCache| && Handed(v, Served(v, i, s, table'), NextAddr(v, i, s, table'), i)
    ensures InOrder(PagesMore(Counting(b, i), NewPages(v, i)), Served(v, i, s, table'))
  {
    OpenBooks(b, v);
    ServedLive(v, i, s, table');
    CountedTake(b, v.live, NextAddr(v, i, s, table'), Block(s, i, With(v, i, s, table').slabs[s].free[0]));
    ServedSlabs(v, i, s, table');
    CloseBooks(PagesMore(Counting(b, i), NewPages(v, i)), Served(v, i, s, table'));
  }

  lemma CleanedKeys(v: View, s: nat, k: nat, p: nat)
    requires s in v.slabs && v.slabs[s].cache < |v.mcs| && p < |v.table| && NoneIdle(v.slabs)
    ensures var slabs' := Cleaned(v, s, k, p).slabs;
      NoneIdle(slabs') && slabs'.Keys == if LastLive(v.slabs[s]) then v.slabs.Keys - {s} else v.slabs.Keys
  {
  }

  lemma CleanedSlabs(v: View, s: nat, k: nat, p: nat)
    requires s in v.slabs && v.slabs[s].cache < |v.mcs| && p < |v.table| && NoneIdle(v.slabs)
    ensures var slabs' := Cleaned(v, s, k, p).slabs; NoneIdle(slabs') && |slabs'| == |v.slabs| - PagesGone(v.slabs[s])
  {
    hide Cleaned, LastLive;
    var slabs' := Cleaned(v, s, k, p).slabs;
    CleanedKeys(v, s, k, p);
    if LastLive(v.slabs[s]) {
      assert |v.slabs.Keys - {s}| == |v.slabs.Keys| - 1;
    }
    assert |slabs'| == |slabs'.Keys| && |v.slabs| == |v.slabs.Keys|;
  }

  lemma CleanedLive(v: View, s: nat, k: nat, p: nat)
    requires s in v.slabs && v.slabs[s].cache < |v.mcs| && p < |v.table|
    ensures var w := Cleaned(v, s, k, p); w.live == v.live - {Addr(s, v.slabs[s].cache, k)} && w.foreign == v.foreign
  {
  }

  lemma Rebalanced(b: Books, b': Books, v: View, w: View)
    requires Counted(b'.nrCache, b'.nrCacheAll, b'.cacheBytes, w.live) && NoneIdle(w.slabs)
    requires b.nrPages == |v.slabs| && b'.nrPages - b.nrPages == |w.slabs| - |v.slabs|
    requires b.nrForeign == 1 + |v.foreign| && b'.nrForeign == b.nrForeign && w.foreign == v.foreign
    ensures InOrder(b', w)
  {
    CloseBooks(b', w);
  }

  /** So does a release: one page less exactly if the last live object of a slab has gone. */
  lemma BooksCleaned(b: Books, v: View, a: nat, x: Block, p: nat)
    requires InOrder(b, v) && a in v.live && v.live[a] == x && x.slab in v.slabs
      && x.cache == v.slabs[x.slab].cache < NUM_MEMCACHES
    requires x.cache < |v.mcs| && p < |v.table| && a == Addr(x.slab, x.cache, x.slot)
    ensures var w := Cleaned(v, x.slab, x.slot, p);
      && x.cache < |b.nrCache| && InOrder(PagesMore(Uncounting(b, x.cache), -PagesGone(v.slabs[x.slab])), w)
      && w.live == v.live - {a} && w.foreign == v.foreign
  {
    OpenBooks(b, v);
    CountedReturn(b, v.live, a);
    CleanedSlabs(v, x.slab, x.slot, p);
    CleanedLive(v, x.slab, x.slot, p);
    Rebalanced(b, PagesMore(Uncounting(b, x.cache), -PagesGone(v.slabs[x.slab])), v, Cleaned(v, x.slab, x.slot, p));
  }

  lemma BooksForeign(b: Books, v: View, a: nat, size: nat)
    requires InOrder(b, v)
    ensures a !in v.foreign ==> InOrder(b.(nrForeign := b.nrForeign + 1), v.(foreign := v.foreign[a := size]))
    ensures a in v.foreign ==> InOrder(b.(nrForeign := b.nrForeign - 1), v.(foreign := v.foreign - {a}))
  {
    OpenBooks(b, v);
    assert a in v.foreign ==> v.foreign.Keys == (v.foreign - {a}).Keys + {a};
  }

  lemma {:induction false} NothingCounted(n: nat)
    ensures ClassBytes(map[], n) == 0 && forall i: nat :: InCache(map[], i) == {}
  {
    if n > 0 {
      NothingCounted(n - 1);
    }
  }

  lemma BooksAtStart(b: Books, v: View)
    requires b.nrCache == seq(NUM_MEMCACHES, _ => 0) && b.nrCacheAll == b.cacheBytes == b.nrPages == 0
      && b.nrForeign == 1
    requires v.slabs == map[] && v.live == map[] && v.foreign == map[]
    ensures InOrder(b, v)
  {
    NothingCounted(|b.nrCache|);
  }

  // ---------------------------------------------------------------- when everything has been freed

  lemma NoLiveSlot(v: View, m: seq<byte>, at: map<nat, Slub>, s: nat)
    requires Sound(v) && PagesHold(m, at, v.slabs) && v.live == map[] && s in v.slabs
    ensures |v.slabs[s].free| >= Capacity(CacheSize(v.slabs[s].cache))
  {
    Unfold(v);
    var slab := v.slabs[s];
    assert at[s].Holds(m, s, slab.free);
    FreeCount(at[s], m, s, slab.free);
    forall k | k in LiveSlots(CacheSize(slab.cache), slab.free)
      ensures false
    {
      assert IsLive(v.slabs, s, k);
    }
  }

  lemma {:induction false} NoBytes(n: nat)
    ensures ClassBytes(map[], n) == 0
  {
    if n > 0 {
      NoBytes(n - 1);
      assert InCache(map[], n - 1) == {};
    }
  }

  /** With nothing live no page is kept, and the counters are what they were at the start. */
  lemma NothingLive(v: View, b: Books, m: seq<byte>, at: map<nat, Slub>)
    requires Sound(v) && InOrder(b, v) && PagesHold(m, at, v.slabs) && v.live == map[] && v.foreign == map[]
    ensures v.slabs == map[] && b == Books(seq(NUM_MEMCACHES, _ => 0), 0, 0, 0, 1)
  {
    OpenBooks(b, v);
    forall s | s in v.slabs
      ensures false
    {
      NoLiveSlot(v, m, at, s);
    }
    assert v.slabs.Keys == {};
    NoBytes(NUM_MEMCACHES);
    assert forall i: nat :: InCache(map[], i) == {};
  }

  /** A state with a block from a slab and one from calloc() */
  lemma SoundExample() returns (v: View)
    ensures Sound(v) && v.live == map[4096 := Block(4096, 0, 0)] && v.foreign == map[8192 := 300]
  {
    v := View(seq(NUM_MEMCACHES, i requires 0 <= i => MemCache(CacheSize(i), [], [])), [EMPTY], false, map[], map[],
      map[]);
    SoundAtStart(v);
    var entry := Entry(4096, 0);
    assert Owned([entry]) == Owned(v.table) + multiset{entry};
    SoundAdd(v, 0, 4096, [entry]);
    v := Added(v, 0, 4096, [entry]);
    CapacityBounds(CacheSize(0));
    SoundTake(v, 4096);
    v := Taken(v, 4096);
    ForeignAdd(v, 8192, 300);
    v := v.(foreign := v.foreign[8192 := 300]);
  }
}
